# Verified models of utils-in-c

Dafny 4.11 models of the algorithms in this repository that carry real invariants, with proofs about every
input, every run or every interleaving. `dafny verify dfyconfig.toml` checks the whole project.

Code that changes things step by step is modelled as classes and methods over arrays, maps and fields; each is
proved equal to a function, and the properties are lemmas about that function.

- **Heap and lock** (`HeapModel`, `HeapRuns`, `HeapTight`, `HeapMemory`, `KMem`, `SpinHeap`, `SpinProgress`):
  `freestanding/kmem.c` over a word memory with linked headers and back pointers, against a list of blocks; and
  the same critical sections line by line under `freestanding/kspinlock.c`, with any number of threads, and how
  long one can hold the lock.
- **Calculator** (`CalcModel`, `CalcProof`, `CalcLayers`, `CalcBalance`, `CalcText`, `CalcRender`, `Calc`): the
  shunting-yard evaluator of `src/calc/calc.c` against the meaning of expression trees and of bracketed texts, for
  tokens and for character strings.
- **CHIP-8** (`Chip8Model`, `Chip8`, `Chip8Opcodes`, `Chip8Laws`, `Chip8Maze`): all opcodes of
  `src/chip8/chip8.c`, what they amount to, and every run of its embedded maze program.
- **Disk and VFS** (`DiskModel`, `DiskProof`, `DiskRuns`, `DiskMounts`, `DiskLayout`, `DiskLosses`, `KDiskFs`,
  `VfsPath`, `VfsTable`, `VfsRuns`, `KVfs`): extents on a sector map, runs across mounts and power cycles, what they
  lose and what a mount restores; the path table with the buffers it owns.
- **Graphics and arithmetic** (`KGfxLine`, `KGfxFlush`, `KFixed`, `KDiv64`, `Euclid`, `Arith`, `Common`): lines,
  incremental flush, Newton square root, 64-bit division.
- **Codecs, hashes, DNS, filter** (`Radix`, `B64`, `B64Text`, `B64Canon`, `B64Code`, `Sha256`, `Crc32`, `DnsName`,
  `DnsCache`, `DnsServer`, `Jail`).

Definitions that a method and its specification share, such as the split of a block, the order of the operators,
the opcodes or the alphabets, are fixed by laws that do not mention them and have their numbers written out
(`HeapTight`, `CalcLayers`, `Chip8Opcodes`, `DiskMounts`, `DiskLayout`, `B64Text`, and single lemmas elsewhere).

Parameters stand for what the code gets from outside: the `double` operations and the numeral conversion of the
calculator, the SHA-256 compression function, the random byte, keys and timers of CHIP-8, the sectors of the
drive (a total map), the answers of `kmalloc` in the VFS and at a mount, the clock, the upstream reply and the
random slot of the DNS cache, the platform's system call numbers, and the bytes beyond a received DNS packet.

Where code and intention part, the code is modelled, the exact condition proved, and an input shown on the wrong
side of it:

- `kmalloc` of 2^64 - 15 to 2^64 - 8 bytes wraps to no bytes at all, and larger sizes get too little
  (`KMem.WrapWindow`, `KMem.WrapDestroysFresh`, `HeapRuns.MallocRoomIff`, `HeapRuns.LargestGetsNothing`); so do
  sizes near 2^64 in `kmalloc_aligned` (`HeapRuns.AlignedRoomIff`, `HeapRuns.AlignedGetsLittle`). A region whose
  size is no multiple of 8 gets a block that ends behind it (`KMem.Kmem.Init`).
- A minus straight after a tight operator is not a negation (`CalcProof.BareMinusRightIff`), and the `x` on line
  551 of `src/calc/calc.c` is never reached, because a letter is read as a name before (`CalcText.SymbolIff`).
- A save over a file on disk does not check that the new size fits its old extent (`DiskProof.SaveFitsIff`,
  `DiskLosses.OthersSurviveIff`, `DiskLosses.NeighbourIsOverwritten`), and only 25 of the 32 entries fit the four
  table sectors (`DiskRuns.CycleFile`, `DiskRuns.CycleInvIff`, `DiskLosses.TwentySixthIsLost`).
- A path of more than 63 characters is cut on disk and not found again (`DiskProof.SavedFoundIff`,
  `DiskLosses.LongPathIsNotFound`); when that is the name of another file, two entries share it and the first of
  them is found (`DiskProof.SaveFitsIff`, `DiskProof.SaveDoes`, `DiskLosses.NamesCollide`,
  `DiskLosses.PrefixIsHidden`).
- `8xy4`, `8xy5`, `8xy7` and the shifts of CHIP-8 write VF before they read or write their operands
  (`Chip8Laws.AddsIff`, `Chip8Laws.SubtractsIff`, `Chip8Laws.SubtractsFromIff`, `Chip8Laws.ShiftsIff`).
- The seventeenth dirty rectangle is dropped (`KGfxFlush.RecordedIff`, `KGfxFlush.SeventeenthIsLost`).
- `kvfs_create` refuses a full table before it looks for the path (`VfsTable.CreateDoes`,
  `VfsRuns.FullTableReached`). Paths of more than 125 characters can share a file (`VfsPath.OwnFileIff`,
  `VfsPath.LongNamesShare`).
- Names of more than 127 characters share cache entries and take a slot for each query (`DnsCache.SaveRightIff`,
  `DnsCache.LongNameWitness`, `DnsCache.LongNameRepeats`, `DnsCache.LongNameTwice`).
- A DNS name with an empty stretch between, before or behind its dots gets a zero byte too many, the empty name and
  the common form "a." included, and a label over 63 bytes is not refused (`DnsName.WireRightIff`,
  `DnsName.WireOfRoot`, `DnsName.WrittenWrong`). An eleventh piece of a compressed name is cut off
  (`DnsName.CutShort`, `DnsName.EleventhIsCut`).
- A fixed-point quotient out of range wraps around (`KFixed.DivExactIff`, `KFixed.DivOverflows`), and the error
  term of a long line overflows (`KGfxLine.LineFitsIff`, `KGfxLine.LongHorizontal`).
- INT64_MIN / -1 is the one wrong quotient (`KDiv64.Div`); for INT64_MIN / 1 the result is right under the
  two's-complement wrap-around of the final negation.
- Base64 decoding does not refuse characters outside the alphabet, misplaced padding or stray filler bits; its
  table holds 0x80808080 for the first (`B64Canon.AcceptsIff64`, `B64Canon.RightIff64`, `B64Canon.ForeignText`,
  `B64Canon.LooseFiller`).

A bitwise `|` of disjoint bits is written as addition in `KDiv64`, and as the function `Arith.Or` in the codecs.

## Model

| member | source | states |
|---|---|---|
| KMem.Kmem.Init | freestanding/kmem.c:97-106 | a null or too small region changes nothing; any other gets one header. For a region at a multiple of 8, below 2^63 bytes and within the address space it is the heap of one block, ending inside the region exactly when the size is a multiple of 8 |
| KMem.Kmem.Kmalloc | freestanding/kmem.c:132-166 | the stores to memory leave exactly the block list of the abstract first-fit allocation (which HeapTight.MallocTight pins byte by byte), return its pointer, and change no live payload; in the size window where the required space wraps to 0 it makes the stores of a zero-byte request |
| KMem.Kmem.FindFit | freestanding/kmem.c:138-162 | the walk over the linked list stops at the first free block that fits, or at NULL when there is none |
| KMem.Kmem.TakeBlock | freestanding/kmem.c:142-159 | splitting and granting a block makes exactly the planned stores, keeps every other payload, and leaves what HeapTight.MallocTight says free |
| KMem.Kmem.KmallocAligned | freestanding/kmem.c:174-195 | for every size and alignment: while no sum wraps, memory holds the heap of the abstract aligned allocation and no earlier payload changes; when one wraps, exactly the stores and the pointer of the wrapped request |
| KMem.Kmem.Free | freestanding/kmem.c:197-222 | memory holds the heap with the block released and merged on both sides; payloads of other pointers are kept |
| KMem.Kmem.GetFreeBytes | freestanding/kmem.c:246-256 | the sum over the free blocks |
| KMem.Kmem.GetUsedBytes | freestanding/kmem.c:258-268 | the sum over the used blocks |
| KMem.Kmem.ClientWrite | freestanding/kmem.c:155-156 | a client's store inside a live payload leaves headers and back pointers intact |
| HeapRuns.MallocCorrect | freestanding/kmem.c:132-166 | the shape is kept; NULL exactly when no free block is large enough (or size 0), and then nothing changes; otherwise exactly one new live pointer, 8-aligned, not live before; how much of the block it takes is HeapTight.MallocTight |
| HeapRuns.MallocRoomIff | freestanding/kmem.c:136-151 | for every size: the block kmalloc takes has room for the request behind the pointer if and only if the size is at most 2^64 - 16 |
| HeapRuns.LargestGetsNothing | freestanding/kmem.c:136-137 | a request of 2^64 - 1 bytes gets a pointer without room from every fresh region |
| KMem.WrapWindow | freestanding/kmem.c:136-137 | in the window where the required space wraps to 0, memory still holds a well-shaped heap if and only if the first free block is too small to be split |
| KMem.WrapDestroysFresh | freestanding/kmem.c:136-153 | a request of 2^64 - 8 bytes leaves no well-shaped heap in a fresh region of at least 96 bytes |
| HeapRuns.AlignedCorrect | freestanding/kmem.c:174-195 | while no sum wraps, the result is a multiple of the alignment and of 8, with room for the request in a block of its own; all other live pointers stay |
| HeapRuns.AlignedRoomIff | freestanding/kmem.c:179-191 | for every size and power of two: the pointer lies in the block it belongs to, with room for the request, if and only if none of the sums wraps |
| HeapRuns.AlignedGetsLittle | freestanding/kmem.c:179 | a request of 2^64 - 40 bytes at a multiple of 8 is served by a block of 8 bytes |
| HeapRuns.KfreeCorrect | freestanding/kmem.c:197-222 | the shape is kept and exactly the freed pointer stops being live |
| HeapRuns.RunKeepsShape | freestanding/kmem.c:97-222 | over every run blocks tile the region in address order and no two neighbours are free |
| HeapRuns.PayloadsDisjoint | freestanding/kmem.c:155-159 | payloads of different live pointers are disjoint and inside the region |
| HeapRuns.Accounting | freestanding/kmem.c:246-272 | free bytes + used bytes + headers = size of the region, in every reachable state |
| HeapRuns.Drained | freestanding/kmem.c:197-222 | with nothing live the heap is the single block kmem_init made |
| HeapRuns.RunDrains | freestanding/kmem.c:97-222 | so every run that frees all it allocated, in any order, aligned pointers included, ends where it began |
| HeapTight.MallocTight | freestanding/kmem.c:132-166 | for every heap in order and every request: kmalloc takes the first free block with the bytes needed, exactly those when it has 64 more and otherwise the whole block, returns the address 40 bytes into it, and changes no other block in use |
| HeapTight.OwnerTight | freestanding/kmem.c:132-166 | there is a pointer if and only if some free block has the bytes needed, and the block that owns it has fewer than 64 bytes more |
| HeapTight.FreeBytesFall | freestanding/kmem.c:142-151 | the free bytes fall by what is needed and 32 bytes, or by the block taken whole: by less than what is needed and 64 |
| HeapTight.AlignedTight | freestanding/kmem.c:174-195 | kmalloc_aligned takes its block in the same way, with 48 bytes and the alignment added to the request, and returns the first multiple of the alignment from 48 bytes into it on |
| HeapTight.KfreeTight | freestanding/kmem.c:197-222 | a release ends the use of the block of that pointer and changes no other block in use |
| HeapTight.InUseFixes | freestanding/kmem.c:197-222 | two heaps of one region in order with the same blocks in use are the same, so the statements on blocks in use give the whole heap |
| HeapTight.MallocThenFree | freestanding/kmem.c:132-222 | freeing what kmalloc has just returned brings back the heap as it was, for every request |
| HeapTight.FreshServesIff | freestanding/kmem.c:97-166 | a fresh region serves a list of requests if and only if their blocks, each up to a multiple of 8 and 40 bytes more, fit in it, and all but the last with 64 bytes to spare |
| HeapMemory.TakeRep | freestanding/kmem.c:142-156 | headers mirror each other through next and prev after an allocation |
| HeapMemory.FreeRep | freestanding/kmem.c:207-219 | and after a release with its merges |
| HeapMemory.PayloadWriteRep | freestanding/kmem.c:155-156 | a word written inside a payload is never a word of a header or a back pointer |
| HeapMemory.HeaderWords | freestanding/kmem.c:5-10 | what the words at 0, 8, 16 and 24 of every header and the word below every live pointer hold: size, free mark, the next block right behind, the one before, and the block of the pointer |
| SpinHeap.MutualExclusion | freestanding/kspinlock.c:9-28 | in every interleaving of any number of threads at most one is between lock and unlock |
| SpinHeap.ClearMeansShaped | freestanding/kspinlock.c:9-28 | whenever the lock is clear, memory holds a well-shaped heap, the one the completed jobs give in unlock order |
| SpinHeap.HolderCanMove | freestanding/kspinlock.c:9-28 | the holder can always run its next line or unlock |
| SpinProgress.HoldsBriefly | freestanding/kmem.c:132-222 | in every interleaving a thread runs at most one line per block and ten more between lock and unlock; with none left it is at the unlock |
| SpinProgress.LinesBounded | freestanding/kmem.c:132-222 | lines run plus lines left never exceed what was left on entry, whatever the other threads do |
| SpinHeap.BehaviourInv | freestanding/kmem.c:132-222 | every line of the critical sections, every lock step and every unlocked payload write keeps the invariant of the shared memory |
| CalcProof.MeaningPreserved | src/calc/calc.c:441-604 | for every expression tree, its (by the table that CalcLayers.LayersObeyed pins) minimally bracketed text evaluates to exactly the tree's value, fails exactly when an operation or a name fails or a stack is too small, and never leaves by underflow, unbalanced brackets or left-over values |
| CalcProof.PrintReads | src/calc/calc.c:562-583 | a subexpression printed by that table read on top of any guarded stacks leaves just its value |
| CalcProof.BareMinusEvaluates | src/calc/calc.c:543-546 | a minus straight after an operator evaluates as (left op 0) - right when op is one of + - * / % ^, as left op (-right) otherwise, and fails exactly when that has no value or a stack is too small |
| CalcProof.BareMinusRightIff | src/calc/calc.c:543-546 | over any values of which there are two, such a minus means negation for every arithmetic if and only if op is one of the bitwise operators and shifts |
| CalcRender.StringMeaning | src/calc/calc.c:426-604 | the same for strings: the written form of a legible expression, as characters, evaluates to its value; CalcLayers.StringLayers says so without the table |
| CalcRender.AnyWritingMeans | src/calc/calc.c:441-604 | and for every other writing that is cut into the same tokens |
| CalcLayers.LayersObeyed | src/calc/calc.c:315-335 | for every text of numerals, names, signs in front, brackets and calls, nested at will: the value is the one of splitting each bracket-free stretch at its last operator of the loosest layer in the list |, xor, &, shifts, + -, * / %, ^, at the first for ^; stated by that list alone |
| CalcLayers.StringLayers | src/calc/calc.c:441-604 | the same for every string that is cut into the tokens of such a text |
| CalcLayers.TwoOperators | src/calc/calc.c:315-335 | for all numerals, operators and arithmetics `a op1 b op2 c` means a op1 (b op2 c) exactly when op2 stands in a later layer than op1 or both are ^, and (a op1 b) op2 c otherwise |
| CalcLayers.ExtraCloseIgnored | src/calc/calc.c:510-536 | a closing bracket too many at the end changes nothing |
| CalcBalance.ValueIsBalanced | src/calc/calc.c:441-604 | any tokens at all, well formed or not: a value comes out only if there is one operand more than binary operators and no bracket is left open |
| CalcBalance.NoValue | src/calc/calc.c:586-603 | so no value for nothing, a missing right operand, two operands in a row, and an open bracket |
| CalcBalance.OnlyFirstRead | src/calc/calc.c:441 | tokens behind the first 2048 are never read |
| CalcRender.RenderLexes | src/calc/calc.c:442-560 | the lexer cuts a written token list into exactly those tokens |
| CalcText.SymbolIff | src/calc/calc.c:471-551 | which characters are which operator or bracket, each in both directions; a letter begins a name, so the x among the operators is never reached |
| CalcText.PrefixedNumber | src/calc/calc.c:447-458 | a numeral after 0x, 0b or 0o, in either case, is all the digits of base 16, 2 or 8 that follow, behind white space, a sign and, for 0x, another 0x; without a digit it is the prefix alone |
| CalcText.DecimalNumber | src/calc/calc.c:459-463 | any other numeral is its digits, a point and the digits behind it, and an exponent that has a digit |
| CalcText.NameLength | src/calc/calc.c:471-486 | a name is all the letters, digits and underscores that follow, but no more than 31, and a bracket behind it makes it a call |
| Calc.GetVarIs | src/calc/calc.c:297-313 | the name ans is the last answer, and every other the first variable of that name, or nothing |
| Calc.Stacks.ReduceTo | src/calc/calc.c:562-579 | the array loop pops as the machine reduces |
| Calc.Stacks.Feed | src/calc/calc.c:445-583 | one round of the main loop is one step of the machine |
| Calc.Stacks.Finalize | src/calc/calc.c:586-603 | the final loop and its three exits |
| Calc.Engine.EvaluateExpression | src/calc/calc.c:426-604 | the loops over characters, names and arrays compute the machine's outcome, and `ans` changes only on success |
| Chip8.Chip8.constructor | src/chip8/chip8.c:101-106 | zeroed machine, font in place, program counter at 0x200 |
| Chip8.Chip8.LoadRom | src/chip8/chip8.c:108-124 | refuses a missing file and empty or oversized programs, changing nothing; otherwise copies the bytes from 0x200 on and changes nothing else |
| Chip8.Chip8.DrawSprite | src/chip8/chip8.c:224-243 | the pixel loops compute the clipped XOR of the sprite; VF is 1 exactly when a lit pixel goes out |
| Chip8.Chip8.ArithStep | src/chip8/chip8.c:177-206 | all 8xyN opcodes, VF written before Vx as in the code |
| Chip8.Chip8.Cycle | src/chip8/chip8.c:126-284 | fetch, decode and execute refine the cycle function for every opcode; Chip8Opcodes says what each does to the whole state |
| Chip8Laws.AddsIff | src/chip8/chip8.c:183-188 | 8xy4 adds with the carry in VF if and only if the destination is not VF |
| Chip8Laws.SubtractsIff | src/chip8/chip8.c:189-192 | 8xy5 subtracts with the inverted borrow in VF if and only if neither operand is VF, which is written first |
| Chip8Laws.SubtractsFromIff | src/chip8/chip8.c:197-200 | the same for 8xy7 |
| Chip8Laws.ShiftsIff | src/chip8/chip8.c:193-204 | 8xy6 and 8xyE move one bit into VF if and only if the operand is not VF |
| Chip8Laws.XorTwice | src/chip8/chip8.c:182 | 8xy3 undoes itself |
| Chip8Laws.DecimalDigits | src/chip8/chip8.c:270-274 | Fx33 stores the three decimal digits of the register |
| Chip8Laws.StoreThenLoad | src/chip8/chip8.c:275-280 | Fx65 brings back what Fx55 stored |
| Chip8Laws.StackRestored | src/chip8/chip8.c:141-155 | any stretch of instructions and whole subroutine calls, not deeper than the stack, leaves the stack pointer and everything below it as they were |
| Chip8Laws.ReturnsHome | src/chip8/chip8.c:141-155 | a subroutine returns behind its call, whatever runs in it, down to sixteen calls deep |
| Chip8Laws.CollisionIff | src/chip8/chip8.c:224-243 | VF is set if and only if a lit pixel is out afterwards |
| Chip8Laws.DrawTwice | src/chip8/chip8.c:224-243 | drawing a sprite twice restores the screen, and one of the two draws collides if and only if any of its pixels shows |
| Chip8Opcodes.SkipsIff | src/chip8/chip8.c:157-251 | the next instruction is skipped, so the program counter moves on by 4 and not by 2, if and only if the condition of 3xkk, 4xkk, 5xy0, 9xy0, Ex9E or ExA1 holds; nothing else changes |
| Chip8Opcodes.JumpsTo | src/chip8/chip8.c:146-218 | the targets of 1nnn and Bnnn, and of 2nnn with the return address on the stack while there is room |
| Chip8Opcodes.ReturnsTo | src/chip8/chip8.c:137-144 | 00EE returns to the address on the stack; without one, and for every other 0nnn but 00E0, nothing happens |
| Chip8Opcodes.ClearsScreen | src/chip8/chip8.c:138-140 | 00E0 puts out every pixel and changes nothing else but the flag |
| Chip8Opcodes.LoadsConstant | src/chip8/chip8.c:169-214 | 6xkk, Annn, and 7xkk, which adds modulo 256 and leaves VF alone |
| Chip8Opcodes.Computes | src/chip8/chip8.c:177-206 | 8xyn: moves, the bitwise operators bit by bit, and sums, differences and shifts modulo 256 of what the registers hold once VF is written; no other register changes |
| Chip8Opcodes.RandomMasked | src/chip8/chip8.c:220-222 | Cxkk: the bits of the random byte that the mask has, and zeros elsewhere |
| Chip8Opcodes.BitsFix | src/chip8/chip8.c:180-222 | two bytes with the same eight bits are the same, so the laws bit by bit give the whole result |
| Chip8Opcodes.DrawsSprite | src/chip8/chip8.c:224-244 | Dxyn flips a pixel if and only if a row of the sprite has that bit there, sets VF if and only if one went out, and fails if and only if a row to be shown is outside the memory |
| Chip8Opcodes.MovesTimers | src/chip8/chip8.c:255-269 | Fx07, Fx15, Fx18, Fx1E and Fx29, and that every other Fxkk does nothing |
| Chip8Opcodes.WaitsForKey | src/chip8/chip8.c:257-265 | Fx0A takes the lowest key that is down, and is carried out again while there is none |
| Chip8Opcodes.StoresDecimal | src/chip8/chip8.c:270-274 | Fx33: three decimal digits at I, nothing else, and failure exactly when they leave the memory |
| Chip8Opcodes.StoresRegisters | src/chip8/chip8.c:275-277 | Fx55: registers 0 to x at I, nothing else, and failure exactly when they leave the memory |
| Chip8Opcodes.LoadsRegisters | src/chip8/chip8.c:278-280 | Fx65: the other way round |
| Chip8Opcodes.FailsIff | src/chip8/chip8.c:126-284 | a cycle whose instruction lies in memory leaves an array in these cases only |
| Chip8Opcodes.CycleKeepsWords | src/chip8/chip8.c:126-284 | every cycle keeps registers, timers and memory bytes, and addresses within 16 bits |
| Chip8Maze.TileDraw | src/chip8/chip8.c:224-243 | drawing the next tile adds exactly its pixels and clears VF |
| Chip8Maze.MazeRun | src/chip8/chip8.c:49-55 | every run of the embedded program, whatever the random bytes, keys and timers, draws tiles 0, 1, 2, ... each once with one of two sprites, keeps VF 0 and memory unchanged, and after at most LAST cycles has drawn all 128 and is at 0x21C |
| Chip8Maze.MazeStays | src/chip8/chip8.c:49-55 | and from then on a cycle changes nothing but what its surroundings change |
| KDiskFs.Kdiskfs.Format | freestanding/kdiskfs.c:18-40 | writes superblock and four table sectors; -1 without a drive |
| KDiskFs.Kdiskfs.SaveFile | freestanding/kdiskfs.c:95-149 | the scans, the sector loop and the sync of the superblock and table in memory compute the save function; -1 without a drive or a free entry |
| KDiskFs.Kdiskfs.DeleteFile | freestanding/kdiskfs.c:151-161 | clears the entry of that name and syncs; -1 when there is none |
| KDiskFs.Kdiskfs.Mount | freestanding/kdiskfs.c:42-81 | formats a disk without the magic number, else loads four sectors of entries and hands every used one for which there is memory to the VFS in order; DiskMounts says with which calls |
| DiskModel.EntryRoundTrip | freestanding/kdiskfs.c:72-77 | an 80-byte entry decodes to what was encoded |
| DiskProof.SaveKeepsInv | freestanding/kdiskfs.c:95-149 | a save with room for its data and name keeps extents apart and in range, names distinct, the disk in step with memory and the counter right |
| DiskProof.SaveDoes | freestanding/kdiskfs.c:95-149 | after any save with room for its data the stored name, 63 characters of the path at most, holds exactly the bytes meant unless an earlier entry has that name, and every other path holds what it held |
| DiskProof.SaveFitsIff | freestanding/kdiskfs.c:101-139 | for every save of every path: the table stays in order if and only if the sectors it writes are free or the file's own and in range, and a path over 63 characters is not cut to the name of another file; the code checks neither |
| DiskLosses.OthersSurviveIff | freestanding/kdiskfs.c:121-137 | a save over a file leaves another file as it is if and only if every byte of it that the written sectors run over already has the value written there |
| DiskLosses.NeighbourIsOverwritten | freestanding/kdiskfs.c:121-137 | after a format and two one-sector files, growing the first to two sectors changes the second |
| DiskProof.SavedFoundIff | freestanding/kdiskfs.c:139 | after a save with room for its data its path is found if and only if it has at most 63 characters |
| DiskLosses.NamesCollide | freestanding/kdiskfs.c:101-139 | a file of 63 letters and one of 64: the second save reports success, is not found, and leaves two entries of one name |
| DiskLosses.PrefixIsHidden | freestanding/kdiskfs.c:107-139 | with an earlier entry free, a save under 64 letters hides the file of 63 |
| DiskLosses.LongPathIsNotFound | freestanding/kdiskfs.c:139 | a path of 64 characters is saved with success and then not found |
| DiskProof.EnoughSectorsFit | freestanding/kdiskfs.c:118-125 | a new file, or a save needing no more sectors than the entry has, always fits while the disk lasts |
| DiskProof.DeleteRemoves | freestanding/kdiskfs.c:151-161 | deleting removes one path and nothing else |
| DiskProof.FormatInv | freestanding/kdiskfs.c:18-40 | formatting starts over with no files |
| DiskRuns.LoadIs | freestanding/kdiskfs.c:55-58 | the table after a mount, whatever memory held: 25 entries and 48 characters of the next path from the disk, the rest from memory |
| DiskRuns.MountReturns | freestanding/kdiskfs.c:42-81 | a mount of the disk any run leaves restores the superblock and that table, and its files are handed to the VFS, with the calls of DiskMounts.MountCallsIff |
| DiskRuns.MountAgain | freestanding/kdiskfs.c:42-58 | a second mount in the same session changes nothing |
| DiskRuns.CycleFile | freestanding/kdiskfs.c:15-58 | a power cycle keeps exactly the files whose entries are among the first 25, with their contents |
| DiskRuns.CycleInvIff | freestanding/kdiskfs.c:15-58 | the counter of files is right after a power cycle if and only if no entry from 25 on was used |
| DiskRuns.RestoredIff | freestanding/kdiskfs.c:61-78 | after a power cycle a non-empty file reaches the VFS with its last bytes if and only if its entry is among the first 25 and kmalloc gives the memory |
| DiskMounts.MountCallsIff | freestanding/kdiskfs.c:61-78 | a mount in the same session makes a directory if and only if the path holds one, writes a file if and only if the path holds those bytes, not empty, and gets memory, and creates one if and only if the path holds an empty file of that type and mode |
| DiskMounts.CycleCallsIff | freestanding/kdiskfs.c:61-78 | after a power cycle it makes exactly those of these calls whose path is among the first 25 entries |
| DiskMounts.MountInOrder | freestanding/kdiskfs.c:61-78 | the calls are one for each such place, in the order of the table, and no others |
| DiskMounts.CycleInOrder | freestanding/kdiskfs.c:61-78 | after a power cycle, one for each such place among the first 25, in order |
| DiskLayout.SaveWrites | freestanding/kdiskfs.c:118-149 | after any save that fits: the whole entry, the least number of 512-byte sectors for the size and at least one, the next free ones for a new file and the old ones otherwise, and every byte of them: the data, or zeros without data, and zeros behind |
| DiskLayout.NameField | freestanding/kdiskfs.c:139 | the name field: up to 63 characters of the path and zeros behind |
| DiskLayout.EntryLayout | freestanding/kdiskfs.h:19-27 | where each field of an entry stands in its 80 bytes, the lowest byte first |
| DiskLayout.TableOnDisk | freestanding/kdiskfs.c:83-93 | after every run byte p of the table, from sector 2 on, is byte p % 80 of entry p / 80 |
| DiskLayout.SuperOnDisk | freestanding/kdiskfs.c:90-92 | and sector 1 begins with KSFS, the number of files, the next free sector and the sector size, the lowest byte first |
| DiskLayout.FormatIs | freestanding/kdiskfs.c:18-40 | a format leaves no files and data from sector 6 on |
| DiskLayout.UnmarkedIsFormatted | freestanding/kdiskfs.c:47-53 | a disk whose sector 1 does not begin with KSFS is formatted by a mount, which then restores nothing |
| DiskLosses.TwentySixthIsLost | freestanding/kdiskfs.c:33-58 | the 26th file is found until the power goes off, then not, and the counter still counts it |
| DiskRuns.RunHolds | freestanding/kdiskfs.c:18-161 | every run of format, save with room for data and name, delete, mount and power cycle refines the history of these operations on 32 named places, which knows no sectors, entries or counters; the table stays in order |
| DiskRuns.RunFile | freestanding/kdiskfs.c:18-161 | so every path holds at the end of a run what that history says |
| DiskRuns.RunCounts | freestanding/kdiskfs.c:18-161 | over every such run the counter of files is ahead by exactly the files power cycles have lost since the last format |
| KGfxLine.Framebuffer.DrawPixel | freestanding/kgfx.c:168-172 | one pixel inside the clip, nothing outside |
| KGfxLine.Framebuffer.DrawLine | freestanding/kgfx.c:181-195 | while its values fit 32 bits the loop visits exactly the points of the independently defined line, in order, and plots exactly those |
| KGfxLine.BandStep | freestanding/kgfx.c:191-193 | the two tests of the error term keep it in its band and step once along the longer axis |
| KGfxLine.LineFitsIff | freestanding/kgfx.c:182-193 | every round of the loop keeps twice the error term and each of its updates within 32 bits if and only if two sums of the extents and their greatest common divisor do |
| KGfxLine.LongHorizontal | freestanding/kgfx.c:190-192 | a horizontal line of extent 2^30 overflows, one of 2^30 - 1 does not |
| KGfxLine.LineEnds | freestanding/kgfx.c:181-195 | the first and last points are the endpoints given, max(|dx|,|dy|) steps apart |
| KGfxLine.LineConnected | freestanding/kgfx.c:191-193 | consecutive points are different 8-neighbours |
| KGfxLine.LineNear | freestanding/kgfx.c:181-195 | every point is within half a pixel of the ideal line on the minor axis |
| KGfxLine.PixelAfter | freestanding/kgfx.c:181-195 | a pixel on screen has the colour if and only if the line visits it, else it is unchanged |
| KGfxLine.PaddingStays | freestanding/kgfx.c:168-172 | memory outside the visible rows is never written |
| KGfxFlush.DirtyList.Add | freestanding/kgfx.c:402-409 | appends, or does nothing once sixteen are recorded |
| KGfxFlush.DoubleBuffer.SwapBuffers | freestanding/kgfx.c:392-396 | the visible part of the front buffer becomes the back buffer's |
| KGfxFlush.DoubleBuffer.FlushDirty | freestanding/kgfx.c:411-427 | the front buffer takes the back buffer's value exactly on the pixels the clamped rectangles cover; the list is emptied |
| KGfxFlush.SafeIff | freestanding/kgfx.c:416-419 | the row copies stay on screen if and only if the rectangle passes a simple test |
| KGfxFlush.FlushIsSwapIff | freestanding/kgfx.c:411-427 | a flush equals the full swap if and only if the rectangles cover every pixel that differs |
| KGfxFlush.FirstSixteen | freestanding/kgfx.c:402-409 | the list holds the first sixteen rectangles since it was cleared |
| KGfxFlush.RecordedIff | freestanding/kgfx.c:402-427 | for every recording the flush equals the full swap if and only if its first sixteen rectangles cover every pixel that differs |
| KGfxFlush.SeventeenthIsLost | freestanding/kgfx.c:402-409 | a screen on which a change only under the seventeenth rectangle is not shown |
| KGfxFlush.DrawKeepsTracked | freestanding/kgfx.c:402-409 | drawing inside recorded rectangles keeps every difference covered |
| KGfxFlush.FlushShowsBack | freestanding/kgfx.c:411-427 | so a flush after it shows the back buffer |
| KGfxFlush.CopiesVisible | freestanding/kgfx.c:416-424 | every visible pixel of an ordinary rectangle is copied, and only those when it does not hang over the top or left |
| KGfxFlush.CopiesIff | freestanding/kgfx.c:411-419 | for every rectangle, negative extents included, exactly the visible pixels along both sides are copied; one that hangs over the top or left keeps its extent from the edge on |
| KFixed.DivExactIff | freestanding/kfixed.c:20-24 | fp32_div is the quotient cut towards zero at 16 binary places if and only if |a| * 2^16 < 2^31 * |b|, or (2^31 + 1) * |b| when the signs differ |
| KFixed.DivOverflows | freestanding/kfixed.c:20-24 | 0x7fffffff divided by 1 comes out as -65536 |
| KFixed.Sqrt | freestanding/kfixed.c:32-39 | never below the exact root rounded down, and above it by at most 1/128 of the excess after the first step, or by one; no 32-bit sum overflows |
| KFixed.FirstSumFitsIff | freestanding/kfixed.c:36 | the first sum fits 32 bits if and only if the argument is at most 2^31 - 1 - 2^16 |
| KFixed.StepAbove | freestanding/kfixed.c:36 | a step from anywhere lands at or above the root |
| KFixed.StepHalves | freestanding/kfixed.c:36 | a step from above leaves at most half of the excess, or one |
| VfsPath.SanitizePath | freestanding/kvfs.c:72-84 | the loops over the 128-byte buffer compute the clean-up function and terminate the text |
| VfsPath.SanitizeIs | freestanding/kvfs.c:72-84 | a cleaned path depends only on the components given: their absolute path, cut at 127 characters |
| VfsPath.SanitizeCanonical | freestanding/kvfs.c:72-84 | it starts with a slash, has no double slash and no slash at its end but for the root |
| VfsPath.SanitizeIdempotent | freestanding/kvfs.c:72-84 | cleaning twice is cleaning once |
| VfsPath.SameFileIff | freestanding/kvfs.c:72-84 | two paths of at most 127 characters clean to one if and only if they have the same components |
| VfsPath.NamesKeptIff | freestanding/kvfs.c:78-83 | cleaning keeps the components of a path if and only if they come to at most 127 characters |
| VfsPath.OwnFileIff | freestanding/kvfs.c:78-83 | no path with other components leads to the same file if and only if they come to at most 125 characters |
| VfsPath.LongNamesShare | freestanding/kvfs.c:78 | two paths of 129 characters that share a file |
| KVfs.Kvfs.Create | freestanding/kvfs.c:150-182 | the scans compute the creation function |
| KVfs.Kvfs.Write | freestanding/kvfs.c:184-219 | the scans and the buffer handling compute the write function |
| KVfs.Kvfs.Delete | freestanding/kvfs.c:221-238 | the scan computes the deletion function |
| KVfs.Kvfs.Open | freestanding/kvfs.c:240-251 | the slot whose canonical path is that of the path given, or none |
| KVfs.Kvfs.Read | freestanding/kvfs.c:253-259 | copies the requested part of the file, cut at its size, and leaves the rest of the buffer; 0 without a node or buffer and for a node deleted since it was opened |
| KVfs.Kvfs.ListDir | freestanding/kvfs.c:261-299 | the callback gets the listing in table order |
| KVfs.Kvfs.ResetTable | freestanding/kvfs.c:86-97 | frees owned buffers and clears every node |
| VfsTable.BuffersExactly | freestanding/kvfs.c:150-238 | the live buffers are exactly the data pointers of used dynamic nodes, each of one node |
| VfsTable.FreesLive | freestanding/kvfs.c:158 | kfree is only ever given a live buffer |
| VfsTable.CreateDoes | freestanding/kvfs.c:150-182 | the invariant is kept; it fails exactly for a null path or a full table, also when the path exists; otherwise the path holds the data given and no other path changes |
| VfsRuns.FullTableReached | freestanding/kvfs.c:150-182 | a reset and 64 creations lead from any state to a table that holds the root and refuses to create it |
| VfsTable.WriteDoes | freestanding/kvfs.c:184-219 | the invariant is kept; it fails exactly when kmalloc does or a new path finds no slot; type and mode survive an overwrite |
| VfsTable.DeleteDoes | freestanding/kvfs.c:221-238 | one path disappears, its buffer is freed, nothing else changes |
| VfsRuns.ResetDoes | freestanding/kvfs.c:86-97 | after a reset no buffer is live and no path exists |
| VfsRuns.RunHolds | freestanding/kvfs.c:86-238 | over every run paths are canonical and distinct, the count is right, no buffer leaks, and each path holds what was last stored under any spelling |
| VfsRuns.WriteThenRead | freestanding/kvfs.c:184-259 | bytes written under one spelling are read back under any other with the same components |
| VfsRuns.ReadPart | freestanding/kvfs.c:253-259 | a read gets the bytes from its offset on, as many as asked for and there are, and two reads of stretches that meet are the read of both |
| VfsRuns.ItemIff | freestanding/kvfs.c:269-298 | a node is reported exactly when it is an immediate child, under its last component |
| VfsRuns.ListsEachChildOnce | freestanding/kvfs.c:261-299 | a name is reported once if it is a child of the directory, and otherwise never |
| VfsRuns.ListedAsStored | freestanding/kvfs.c:261-299 | each child is listed with the size of its data, its type and its mode |
| VfsRuns.ListingJoins | freestanding/kvfs.c:269-299 | and in the order of the table |
| Sha256.Context.Update | src/hashcalc/hashcalc.c:84-94 | after any number of bytes the context stands for everything taken in so far |
| Sha256.Context.Final | src/hashcalc/hashcalc.c:96-129 | the hash is that of the whole message as FIPS 180-4 sections 5.1.1 and 6.2 define it over the compression function, with the length modulo 2^64 |
| Sha256.HashStream | src/hashcalc/hashcalc.c:141-154 | however a message is cut into pieces the hash is that of the whole |
| Sha256.PaddingInjective | src/hashcalc/hashcalc.c:96-117 | different messages of less than 2^64 bits are padded differently |
| Sha256.PaddedShape | src/hashcalc/hashcalc.c:96-117 | the padded message is the message, 0x80, zeros and the number of bits in eight bytes, the highest first, in the least multiple of 64 bytes |
| Sha256.RootsOfPrimes | src/hashcalc/hashcalc.c:76-82 | the initial words are the first 32 bits behind the point of the square roots of the first eight primes |
| Sha256.DigestAt | src/hashcalc/hashcalc.c:119-128 | byte 4k + j of the digest is byte j of word k, the highest first |
| Crc32.Crc32 | src/hashcalc/hashcalc.c:8-17 | the two loops compute the checksum function |
| Crc32.Chained | src/hashcalc/hashcalc.c:8-17 | crc32(b, crc32(a, c)) == crc32(a + b, c) |
| Crc32.BurstDetected | src/hashcalc/hashcalc.c:8-17 | two messages of one length that differ only within four consecutive bytes have different checksums |
| Crc32.Residue | src/hashcalc/hashcalc.c:8-17 | every message followed by its own checksum, the lowest byte first, has the checksum 0x2144DF1C |
| Crc32.ResidueIff | src/hashcalc/hashcalc.c:8-17 | four bytes behind a message are its checksum if and only if the whole has that one |
| Crc32.NothingFed | src/hashcalc/hashcalc.c:8-17 | the checksum of nothing is the one begun with |
| B64Code.EncodeBase64 | src/b64/b64.c:44-66 | the loop and the final '=' writes give the encoding of RFC 4648 section 4 |
| B64Code.DecodeBase64 | src/b64/b64.c:68-101 | computes the decoder function, characters outside the alphabet included |
| B64Code.EncodeBase32 | src/b64/b64.c:104-140 | the loops give the encoding of RFC 4648 section 6 |
| B64Code.DecodeBase32 | src/b64/b64.c:142-191 | computes the decoder function and refuses characters outside the alphabet |
| B64Code.Table64 | src/b64/b64.c:79-85 | the table built by the loop holds the inverse alphabet |
| B64Code.Table32 | src/b64/b64.c:162-171 | the same for both letter cases |
| B64.RoundTrip64 | src/b64/b64.c:44-101 | decode(encode(x)) == x in Base64, also with white space behind the text |
| B64.RoundTrip32 | src/b64/b64.c:104-191 | decode(encode(x)) == x in Base32, also with white space behind the text |
| B64.EncodedLength | src/b64/b64.c:45 | four characters for three bytes begun, eight for five |
| B64.PaddingIs | src/b64/b64.c:61-63 | '=' exactly on the last 0, 1, 2 (or 0, 1, 3, 4, 6) characters, as RFC 4648 lists them |
| B64Text.Base64At | src/b64/b64.c:19-66 | character i of an encoding is the letter of the alphabet at the six bits it stands for, counted from the front of the message, and '=' behind the last of them |
| B64Text.Base32At | src/b64/b64.c:20-139 | the same for five bits |
| B64Text.ValueIff | src/b64/b64.c:79-171 | the decoders take a character for a place of the alphabet if and only if it stands there, or, in Base32, is its lower case |
| B64Canon.AcceptsIff64 | src/b64/b64.c:69-70 | Base64 decoding accepts a text if and only if its length without trailing white space is a multiple of 4 |
| B64Canon.AcceptsIff32 | src/b64/b64.c:142-191 | Base32 decoding accepts a text if and only if that length is a multiple of 8 and every character is in the alphabet |
| B64Canon.RightIff64 | src/b64/b64.c:68-101 | an accepted text is the encoding of what it decodes to if and only if it is whole blocks of letters with the padding RFC 4648 section 4 lists and zero filler bits |
| B64Canon.RightIff32 | src/b64/b64.c:142-191 | the same for Base32 and RFC 4648 section 6 |
| B64Canon.ForeignText | src/b64/b64.c:79-97 | !!!! is accepted and decodes to the bytes A8 A0 80 |
| B64Canon.LooseFiller | src/b64/b64.c:86-97 | QQ== and QR== decode to the same byte; only the first is an encoding |
| DnsName.DomainToDns | src/dnsquery/dnsquery.c:49-67 | the back-patching loop computes the wire format |
| DnsName.ReadDnsName | src/dnsquery/dnsquery.c:69-98 | the loop computes the reading function and ends for every memory |
| DnsName.WireRightIff | src/dnsquery/dnsquery.c:49-67 | a text is written as RFC 1035 section 3.1 says, as labels of 1 to 63 bytes, if and only if every stretch between its dots has 1 to 63 bytes |
| DnsName.WireIs | src/dnsquery/dnsquery.c:49-67 | every text is written as its stretches, whatever their lengths, each behind its length in eight bits, and a zero byte |
| DnsName.JoinPieces | src/dnsquery/dnsquery.c:49-67 | those stretches, joined with dots, are the text |
| DnsName.WireOfRoot | src/dnsquery/dnsquery.c:53-65 | the empty name is written as two zero bytes, so wrongly |
| DnsName.WrittenWrong | src/dnsquery/dnsquery.c:53-65 | a name with a dot at its end or two in a row gets an extra zero byte, and a label over 63 bytes is wrong |
| DnsName.RoundTrip | src/dnsquery/dnsquery.c:49-98 | reading a written name gives the name and consumes exactly its length |
| DnsName.Compressed | src/dnsquery/dnsquery.c:78-85 | a name in pieces linked by pointers gives the first ten pieces, so all of it with at most nine pointers, and consumes only its first piece |
| DnsName.CutShort | src/dnsquery/dnsquery.c:73-84 | the full name comes out if and only if the pieces after the tenth hold no label |
| DnsName.EleventhIsCut | src/dnsquery/dnsquery.c:73-84 | a name in eleven pieces that comes out short |
| DnsServer.Server.FindInCache | heavy_utils/dnsserver.c:231-240 | the scan, expiring entries on its way, computes the lookup function |
| DnsServer.Server.SaveToCache | heavy_utils/dnsserver.c:242-258 | computes the save function |
| DnsServer.Server.ClearCache | heavy_utils/dnsserver.c:347-349 | only the counter is reset |
| DnsServer.Server.Answer | heavy_utils/dnsserver.c:414-433 | lookup, else forward and save |
| DnsCache.FindHitIff | heavy_utils/dnsserver.c:231-240 | a lookup hits if and only if a used slot in range has the type, a name of the same length that differs at most in the case of letters, and an expiry not before now |
| DnsCache.SameNameIff | heavy_utils/dnsserver.c:234 | names are the same if and only if they have one length and at each place one character or the two cases of one letter |
| DnsCache.SameKeyIff | heavy_utils/dnsserver.c:234 | so the history of QueryCorrect and RunCorrect has one place for such names of one type, and another for any other name or type |
| DnsCache.AnswerIff | heavy_utils/dnsserver.c:414-433 | a request is answered from the cache if and only if such a slot exists, and otherwise with what comes from upstream, if anything |
| DnsCache.AskedAgain | heavy_utils/dnsserver.c:231-433 | a name asked again, in any writing, is answered from the cache exactly until 120 seconds after its answer came |
| DnsCache.QueryCorrect | heavy_utils/dnsserver.c:414-433 | a cached answer is the packet saved last under that name, in any writing, and type, unexpired, with this request's id |
| DnsCache.RunCorrect | heavy_utils/dnsserver.c:347-433 | over every run of queries and clears, whatever the clock and the evictions, each cached answer is the packet saved last for its name and type, and at most one used slot has a name and type at every moment |
| DnsCache.SaveRightIff | heavy_utils/dnsserver.c:242-258 | after a miss, the history stays right if and only if the name has at most 127 characters, or its first 127 are already known with the same packet and expiry and no other used slot has them |
| DnsCache.LongNameRepeats | heavy_utils/dnsserver.c:244-252 | while something can be reused, saving a longer name again takes another slot, so two used ones hold one name and type |
| DnsCache.LongNameTwice | heavy_utils/dnsserver.c:244-252 | so with 128 letters saved twice in the cache as the server starts with it |
| DnsCache.LongNameAnswersForPrefix | heavy_utils/dnsserver.c:252 | a packet saved under a longer name is not found under it, but answers for its first 127 characters |
| DnsCache.LongNameWitness | heavy_utils/dnsserver.c:242-258 | so with 128 letters in the cache as the server starts with it |
| DnsCache.SavedIsLive | heavy_utils/dnsserver.c:242-258 | a packet just saved answers, under any writing of its name, exactly until its time to live is over, 60 seconds for none |
| DnsCache.SlotTaken | heavy_utils/dnsserver.c:244-250 | a save takes the first slot in range that is unused or has expired, else the one behind the range, else the random one |
| DnsCache.SaveKeepsLive | heavy_utils/dnsserver.c:244-250 | a save drops an unexpired entry if and only if nothing can be reused and the random slot is that one |
| KDiv64.UDivMod | freestanding/kdiv64.c:8-27 | num == quot * den + rem with rem < den for every nonzero divisor; both 0 for a zero one |
| KDiv64.Step | freestanding/kdiv64.c:17-23 | the left shift never loses a bit, for divisors above 2^63 too, and the quotient stays within num |
| KDiv64.Div | freestanding/kdiv64.c:29-49 | the quotient truncated towards zero if and only if the pair is not (INT64_MIN, -1) |
| KDiv64.Mod | freestanding/kdiv64.c:51-59 | the remainder with the sign of the dividend, for every pair |
| KDiv64.TruncatesUnique | freestanding/kdiv64.c:29-59 | there is only one such quotient and remainder |
| Jail.Emitter.Build | low-utils/jail.c:186-597 | the emitter's array holds exactly the program for the flags |
| Jail.ProgramCorrect | low-utils/jail.c:186-597 | running the program on any architecture and number gives the verdict the flags mean: kill on a wrong architecture, allow for a listed number, the deny action otherwise |
| Jail.VerdictIff | low-utils/jail.c:186-597 | ALLOW if and only if the architecture matches and the number is in the baseline or an enabled group; KILL if and only if it does not match, or the number is not there and killing is asked for; error 1 in the one case left |
| Jail.MoreFlagsAllowMore | low-utils/jail.c:418-593 | enabling more groups never takes an ALLOW away |
| Jail.ProgramAccepted | low-utils/jail.c:199-202 | every jump stays inside the program, which ends in a return |

## Left out

- KMem.Kmem.Kmalloc: pointers and sizes are 8-byte words (LP64); on 32-bit targets the header is smaller.
- KMem.Kmem.KmallocAligned: when its padded size wraps around 2^64, the contract gives the stores and the pointer but no heap, since the last store may hit any word; the runs of HeapRuns leave such requests to the caller.
- KMem.Kmem.Init: for a region off a multiple of 8, of 2^63 bytes or more, or past 2^64 only the header written is stated, not a heap.
- kmem_add_region: a second region is linked without its next pointer and merged without an adjacency test; one region is modelled.
- krealloc and kzalloc: the first compares and copies a size that includes the back pointer; the second only clears what kmalloc returned.
- SpinHeap.MutualExclusion: a step is one source line, so the accesses within a line are not interleaved; memory accesses are sequentially consistent and the lock's acquire and release orders are not modelled separately; kmalloc_aligned's two locked sections are separate jobs, its first is kmalloc's.
- CalcProof.MeaningPreserved: values are abstract, so no claim about rounding, factorial or number formatting; the texts have at most as many tokens as the step guard allows.
- CalcProof.PrintReads: line 545 pushes without its bound check, and the other pushes abort by assertion; both are a stack overflow outcome here.
- Calc: readline, history, result cards, variable assignment and the functions' names and messages.
- Chip8.Chip8.Cycle: an access beyond an array has no outcome, where the C code reads or writes its neighbours.
- Chip8: terminal, key map, timers' speed.
- KDiskFs.Kdiskfs.Mount: reports the calls it makes into the VFS instead of making them; a read past an entry's sectors and the 32-bit product of sector count and sector size are not modelled, and the buffer that the code never frees is not followed.
- DiskRuns.RunHolds: drive reads and writes always succeed, data is below 4 GiB, and every save has room for its data and its name, as SaveFitsIff explains.
- KGfxLine.Framebuffer.DrawLine: the line must keep within 32 bits, exactly as LineFitsIff says, since C gives the loop no meaning beyond.
- KGfxFlush.DoubleBuffer.FlushDirty: rectangles must be safe in the sense of SafeIff, since the code copies a negative width otherwise.
- kgfx circles, fonts, cursor, triangles, blending: presentation, or not the exact recurrences.
- KFixed.Sqrt: a bound of 1/128 of the first excess, not the quadratic convergence near the root; sine, cosine and formatting are left out.
- VfsTable.CreateDoes: memory of a caller is held by value, so a later change of it by the caller is not seen.
- KVfs.Kvfs.Read: offset plus count is unbounded, where the C sum wraps at 2^64, and the count is returned without the cast to int.
- KVfs.Kvfs.ResetTable: the default files kvfs_init then creates are not listed.
- Sha256.Context.Final: the compression function is abstract; FNV-1a is left out as easy.
- DnsName.ReadDnsName: the caller's name buffer is as long as needed.
- DnsCache.QueryCorrect: names of at most 127 characters, as SaveRightIff explains; block list, local hosts, reverse lookups and the sockets are left out.
- Jail.Emitter.Build: the program must fit the 1024 instructions; the lists in the source make at most 243. The privileges and the installation of the filter are left out.
- The remaining programs (terminal interfaces, /proc readers, sockets, file tools, the pythont transpiler, raw port I/O) are left out: input, output and presentation, or easier members of the same kinds.
