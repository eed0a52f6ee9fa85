# Nachos kernel and machine: a verified model

This project models four connected parts of the Nachos teaching operating system and proves what they promise.

- **The on-disk file system.** `Storage`, `BitMaps`, `FileHeaders`, `OpenFiles`, `Directories` and `FileSystems` follow the source's
  classes and methods: headers with a two-level sector table, byte ranges read and written through whole sectors, directories as
  tables of flagged slots, and the operations that keep bitmap, headers and directories together. `FileSystemState` states the
  invariant, `DiskOk`: the disk holds a tree of files and directories (`DirectoryTree`) whose sectors each have one owner
  (`Ownership`) and are marked. `FileSystemResults` and `FileSystemRemovals` say what each operation promises.
  `FileHeaderTheorems` is about allocation and deallocation.
- **The MIPS processor.** `Machines` executes instructions in place as the simulator does, with C's bit operators (`BitOps`), the
  shift-and-add multiplication (`Multiplication`), and translation through a page table or a TLB (`Translation`, whose exact
  answers are in `TranslationLaws`). It is proved against `MachineSemantics`, one step of the machine in plain arithmetic, about
  which restartability and the load delay are proved. `InstructionLaws` says what each instruction does by equations, bits and bytes
  of its own, and `InstructionCodes` which word stands for which instruction; `Restarts` and `RestartWitnesses` say exactly when a
  program can tell that a pending load was committed early.
- **The discrete-event machine.** `Interrupts` keeps simulated time and pending interrupts, `Disks` computes latencies, and
  `SynchDiskProtocol` takes the steps of any number of threads and of the disk in any order.
- **The network.** `PostOffices` is the handoff from interrupts to the postal worker and the mailboxes; `Tcp` the stop-and-wait
  protocol with acknowledgements.

A ghost argument or field of a method is there for the proof only. In `FileSystems` the fields `tree` and `place` say what the disk
holds and who owns each sector; `Valid()` says that this is so and that the directory in memory is the one on disk, `Usable()` that
the latter may be ahead of the disk by names that refused calls left behind. `Disordered` says that no tree and no ownership at all
describe what is on a disk.

## What the code does against its own comments

The model follows the code, and the lemmas say exactly when it meets the intent.

- `FileHeader::Deallocate` clears no data sectors (the loop guard at `code/filesys/filehdr.cc:104` is false at once), although its
  comment promises all of them: `DeallocateUndoesAllocate`, `Remove`.
- `FileHeader::Allocate` checks room for data sectors but not for index blocks (`code/filesys/filehdr.cc:44`), and may return TRUE for a
  file with missing blocks, or be stopped by the disk's assertion: `Allocate`, `MissingBlocks`, `Create`.
- A `Create` or `CreateDirectory` refused late leaves its name in the directory in memory; the comment at
  `code/filesys/filesys.cc:27-29` promises that changes are discarded. The next one that succeeds there writes the stale name to
  the disk, after which nothing describes it: `Create`, `CreateDirectory`, `StaleNameDisorders`.
- `RemoveDirectory` asks whether the current directory is empty, not the one named (`code/filesys/filesys.cc:443-446`), so that it
  never removes a child directory that is on the disk: `RemoveDirectory`.
- `Remove` and `ChangeDirectory` do not ask what a name is of. `Remove` of a directory takes it out of the tree with everything under
  it and gives back two sectors: `Remove`, `NodeLeft`.
- An idle machine with only the timer pending moves its clock to the timer's time although nothing fires
  (`code/machine/interrupt.cc:290-303`): `CheckIfDue`, `Idle`.
- The quota that `SendWait` gives `CatchMail` is one short after a stale acknowledgement, which can come exactly when something of
  an earlier exchange is still under way: `TransmitUntilAnswered`, `StaleAckLeavesOneMore`, `QuotaSufficesIffQuiet`.

## Model

| member | source | states |
|---|---|---|
| Bytes.WordRoundTrip | code/filesys/filehdr.cc:141-154 | an int stored in a header sector is read back unchanged |
| Bytes.WordsRoundTrip | code/filesys/filehdr.cc:59-63 | the 32 ints of a header, stored as its 128 bytes, are read back unchanged, so an index block may be written as a FileHeader and read as an int array |
| Storage.SynchDisk.ReadSector | code/filesys/synchdisk.cc:69-75 | the sector's contents, for a number on the disk |
| Storage.SynchDisk.WriteSector | code/filesys/synchdisk.cc:86-92 | exactly one sector changes |
| Storage.BCopy | code/filesys/openfile.cc:134 | exactly the bytes asked for are copied, and no others of the target change |
| BitMaps.BitMap.Find | code/filesys/filehdr.cc:51 | contract assumed of the bitmap class: some clear bit is marked and returned, or -1 if and only if there is none |
| BitMaps.PackRoundTrip | code/filesys/filesys.cc:194-217 | a bitmap written to its file and fetched again is the same bitmap |
| FileHeaders.SectorCount | code/filesys/filehdr.cc:43 | the least number of sectors that hold the file |
| FileHeaders.IndexCount | code/filesys/filehdr.cc:49 | the least number of index blocks; the unsigned divisor makes a negative count ask for more than the header can list |
| FileHeaders.FileHeader.FetchFrom | code/filesys/filehdr.cc:141-143 | the header becomes what its sector holds |
| FileHeaders.FileHeader.WriteBack | code/filesys/filehdr.cc:152-154 | only that sector changes and it decodes to this header |
| FileHeaders.FileHeader.FillIndexBlock | code/filesys/filehdr.cc:52-61 | the field layout (numBytes, numSectors, dataSectors[i-2]) of the writer is, read as an int array, the sectors in the order found |
| FileHeaders.FileHeader.Allocate | code/filesys/filehdr.cc:41-68 | when it returns FALSE, TRUE, or is stopped, each if and only if, for every size and every bitmap; after TRUE the sectors found lie in the two-level table in order, and only index blocks were written; in every case nothing was written but to sectors that were clear |
| FileHeaders.FileHeader.AllocateDirectory | code/filesys/filehdr.cc:81-90 | FALSE iff too few sectors are clear, and TRUE iff there are enough and the header can list them, for every size; the header then lists the sectors found, in order |
| FileHeaders.InnerLoopNeverRuns | code/filesys/filehdr.cc:104 | the guard of Deallocate's inner loop is false at once, whatever the file |
| FileHeaders.FileHeader.Deallocate | code/filesys/filehdr.cc:99-117 | as written, for every header: exactly the index sectors are cleared, or it is stopped, iff an index block is not on the disk or past the table |
| FileHeaders.FileHeader.DeallocateDirectory | code/filesys/filehdr.cc:126-132 | for every header: exactly the listed sectors are cleared, or it is stopped, iff they are not different sectors, all marked, within the table |
| FileHeaders.FileHeader.ByteToSector | code/filesys/filehdr.cc:169-186 | the sector of the block that holds the byte, through the table of either mode |
| FileHeaderTheorems.MissingBlocks | code/filesys/filehdr.cc:44-65 | after a TRUE, every block has a sector of the disk iff there was also room for the index blocks; otherwise exactly the blocks whose Find came too late are -1 |
| FileHeaderTheorems.BlocksDistinct | code/filesys/filehdr.cc:49-65 | with room, for every size up to 960 sectors, the block map is injective, never hits an index block, uses only sectors that were clear, and marks exactly those |
| FileHeaderTheorems.BlocksFound | code/filesys/filehdr.cc:49-65 | after any TRUE, room or no room: index and data blocks that were found are different sectors, clear before, and exactly the ones newly marked |
| FileHeaderTheorems.DeallocateUndoesAllocate | code/filesys/filehdr.cc:99-117 | after any TRUE, exactly the data sectors that were found stay marked, and how many those are; the bitmap is as before Allocate iff the file is empty or its index block took the only clear sector |
| FileHeaderTheorems.DeallocateDirectoryUndoesAllocate | code/filesys/filehdr.cc:126-132 | DeallocateDirectory after AllocateDirectory restores the bitmap |
| OpenFiles.OpenFile.constructor | code/filesys/openfile.cc:29-33 | the header on disk, seek position 0 |
| OpenFiles.OpenFile.Seek | code/filesys/openfile.cc:52-54 | the seek position is the one given |
| OpenFiles.OpenFile.ReadAt | code/filesys/openfile.cc:110-137 | for every position, count and alignment, and every header whose blocks reached into are on the disk: the clipped count, exactly that slice of the file in the buffer, nothing else of the buffer touched |
| OpenFiles.OpenFile.ReadEnds | code/filesys/openfile.cc:161-166 | after the partial reads the buffer agrees with the file wherever the write will not cover it |
| OpenFiles.OpenFile.WriteAt | code/filesys/openfile.cc:139-176 | the file becomes old[..p] + data + old[p+n..] with n clipped to its length, whatever the alignment of first and last sector; only the file's own blocks change |
| OpenFiles.OpenFile.Read | code/filesys/openfile.cc:69-73 | the slice at the seek position, which moves past it |
| OpenFiles.OpenFile.Write | code/filesys/openfile.cc:75-79 | the bytes at the seek position are replaced, and it moves past them |
| OpenFiles.Untouched | code/filesys/openfile.cc:171-173 | changing none of a file's index and data sectors leaves every byte of it as it was |
| OpenFiles.ReadPieces | code/filesys/openfile.cc:69-73 | successive calls of Read with any sizes return together the slice that one Read of their sum would |
| OpenFiles.WritePieces | code/filesys/openfile.cc:75-79 | data cut in any way into successive calls of Write leaves the file as one Write of the whole |
| Directories.CopiedKey | code/filesys/directory.cc:130-143 | a name copied by strncpy into a slot is the same to strncmp over nine characters as the name it was copied from |
| Directories.KeyOfName | code/filesys/directory.h:22 | what counts of a name is all of it, or its first nine characters |
| Directories.KeysAgree | code/filesys/directory.cc:97 | two names or name fields have the same key iff their characters agree at each of nine places up to the first zero |
| Directories.Directory.StrNCmp | code/filesys/directory.cc:97 | comparing character by character finds no difference iff they agree so |
| Directories.FlagBits | code/filesys/directory.h:86-111 | bit 0 says in use, bit 1 directory; setting one flag reads back and leaves the other flag, the name and the sector alone |
| Directories.Names | code/filesys/directory.cc:95-117 | the finite map a table stands for: a key is in it iff some slot in use holds it |
| Directories.ListedAt | code/filesys/directory.cc:95-117 | with distinct keys, whichever slot holds a key is the one found |
| Directories.FilledNames | code/filesys/directory.cc:130-165 | filling a free slot adds exactly the new key, with the right flag even on a reused slot, and keeps keys distinct |
| Directories.FreedNames | code/filesys/directory.cc:178-184 | freeing a slot removes exactly its key |
| Directories.TableRoundTrip | code/filesys/directory.cc:71-85 | a table written to its file and fetched again is the same table, flags and sectors included |
| Directories.Directory.constructor | code/filesys/directory.cc:38-53 | "." and ".." in use as directories, every other slot free |
| Directories.Directory.FetchFrom | code/filesys/directory.cc:71-73 | the first 160 bytes of the file, as many as there are, laid over the table; of a file of 160 bytes just the table in it |
| Directories.Directory.WriteBack | code/filesys/directory.cc:83-85 | the file holds the table; nothing but its blocks changes |
| Directories.Directory.FindIndex | code/filesys/directory.cc:95-100 | the first slot in use whose name agrees with the one given over nine characters, or -1 if there is none |
| Directories.Directory.Find | code/filesys/directory.cc:111-117 | the sector the map gives for the key, or -1 |
| Directories.Directory.Add | code/filesys/directory.cc:130-143 | FALSE iff the key is present or slots 2 onwards are full; otherwise the first free one is filled and the map gains exactly this key as a file |
| Directories.Directory.AddDirectory | code/filesys/directory.cc:155-165 | FALSE iff slots 2 onwards are full; otherwise the first free one is filled, and a map without the key gains exactly this key as a directory |
| Directories.Directory.Remove | code/filesys/directory.cc:178-184 | TRUE iff the key is present; then its first slot alone is freed, and with distinct keys the map loses exactly that key |
| Directories.Directory.IsEmpty | code/filesys/directory.h:128-135 | true iff no slot from 2 on is in use |
| DirectoryTree.UpReachesRoot | code/filesys/filesys.cc:477-492 | from every directory of a tree in order, ".." reaches the root in exactly as many steps as it lies deep |
| DirectoryTree.AddFile | code/filesys/filesys.cc:200-215 | naming a new file keeps the tree in order |
| DirectoryTree.AddDir | code/filesys/filesys.cc:377-402 | naming a new empty directory, whose ".." is the current one, keeps the tree in order |
| DirectoryTree.RemoveNode | code/filesys/filesys.cc:291 | freeing the slot of any node keeps in order the tree without that node and everything under it |
| DirectoryTree.TreeIsDetermined | code/filesys/filesys.cc:477-492 | directory tables describe at most one tree |
| DirectoryTree.FormattedTree | code/filesys/filesys.cc:87-88 | the tree a format leaves: the root alone, its own parent |
| Ownership.AddOwner | code/filesys/filesys.cc:205-217 | a node whose sectors nobody owned joins without a sector getting two owners |
| Ownership.RemoveOwners | code/filesys/filesys.cc:289-290 | nodes leave, and everyone else still owns exactly what it did |
| Ownership.OthersKept | code/filesys/openfile.cc:171-173 | writing one owner's data blocks leaves every other owner's contents as they were |
| FileSystemState.SectorsHaveOneOwner | code/filesys/filesys.cc:79-149 | safety: in every state in order no sector has two owners (bitmap file, directories, files; headers, index blocks, data), and every owned sector is marked |
| FileSystemState.UpFromAnywhere | code/filesys/filesys.cc:477-492 | in every state in order each directory's "." names its own header and its ".." chain ends at sector 1 |
| FileSystemState.DiskIsDetermined | code/filesys/filesys.cc:79-149 | a disk in order is so in one way only: what is on it determines the tree and the owner of every sector |
| FileSystemState.OwnedButClear | code/filesys/filesys.cc:289-298 | a disk on which an owned sector is not marked is in order under no other tree or ownership either |
| FileSystemState.WriteKeepsDisk | code/filesys/openfile.cc:139-176 | isolation: writing a file's blocks keeps ownership, bitmap and tree, the header of every file, and the contents of every other file and directory, in step with memory or not |
| FileSystemState.NewFileOwned | code/filesys/filesys.cc:205-211 | right after a new file's header is written it owns exactly the sectors newly marked, and nobody has lost anything |
| FileSystemState.NewFileHeader | code/filesys/filehdr.cc:44-65 | the same moment without room for the index blocks: old nodes are safe, and some block of the new file is missing iff room lacked |
| FileSystemResults.FormattedOwners | code/filesys/filesys.cc:90-107 | after a format the marked sectors are exactly those of the bitmap file and the root directory, each with one owner |
| FileSystemResults.DownAndUp | code/filesys/filesys.cc:477-492 | cd into any listed child and then cd ".." leads back to the same directory |
| FileSystemRemovals.NodesLeave | code/filesys/filesys.cc:289-290 | without the nodes that leave, ownership is in order; the sectors marked without an owner are those there were and what those nodes owned and was not cleared |
| FileSystemRemovals.BlocksAreLeft | code/filesys/filehdr.cc:104 | of an ordinary file that is exactly its data blocks |
| FileSystemRemovals.NodeLeft | code/filesys/filesys.cc:272-302 | removing a file or a directory on the disk: the disk is in order without it and everything under it if memory and disk agreed before; otherwise a name left behind was written too and nothing describes the disk |
| FileSystemRemovals.LeftOverGone | code/filesys/filesys.cc:272-302 | removing a name left behind: the disk is in order iff no other was left behind and nobody owned a sector that was cleared with it |
| FileSystemResults.NodeAt | code/filesys/filesys.cc:252-253 | whatever a slot in use names is a header on the disk, of the kind its flag says |
| FileSystems.FormatDisk | code/filesys/filesys.cc:80-123 | on any disk contents: the invariant holds, no sector is marked without an owner, and the root is empty |
| FileSystems.FileSystem.constructor | code/filesys/filesys.cc:79-149 | with format, a fresh file system in order; without, the one on disk is found in order and nothing is written |
| DirectoryTree.DirectoriesRemain | code/filesys/filesys.cc:180-226 | as long as no table loses the name of a directory, but for some, every directory there was and that is not under one of these is in whatever tree the tables make |
| FileSystemResults.MissingBlockDisorders | code/filesys/filehdr.cc:44-65 | once a file with a missing block is named on the disk, no tree and no ownership whatever describe that disk |
| FileSystemResults.StaleNameDisorders | code/filesys/filesys.cc:200-207 | once a name left in memory by a refused Create or CreateDirectory is written to the disk, no tree and no ownership describe that disk, whichever sector the next Find gave |
| FileSystemRemovals.DotGone | code/filesys/filesys.cc:451-456 | nor one on which a directory has lost its "." or ".." |
| FileSystems.FileSystem.Create | code/filesys/filesys.cc:180-226 | also after earlier refusals: its outcome is decided exactly by name, map, slots and room; a refusal writes nothing but leaves the name in memory iff it came late, and memory then agrees with the disk under no tree; the file system is in order afterwards iff it was before and this call was neither refused late nor short of index blocks, and then exactly one file and its sectors are new and no sector has lost its owner; a TRUE otherwise leaves a disk that no tree and no ownership describe; a stop inside Allocate leaves the disk in order as it was; every other node and header reads as before |
| FileSystems.FileSystem.Remove | code/filesys/filesys.cc:272-302 | for every name, also after late refusals. Of a file: it leaves the tree, every other node reads as before, and exactly its data blocks join the sectors marked without an owner. Of a directory: the same with everything under it, of all of which only its header and first block are cleared. Of "." or "..": no tree describes the disk any more. Of a name left behind: stopped iff the words where it points list no index blocks on the disk, otherwise freed. The disk is in order afterwards iff no other name left behind was written, and no owned sector cleared |
| FileSystems.FileSystem.CreateDirectory | code/filesys/filesys.cc:363-416 | 0, -1 and -2 each iff; on 0 an empty directory whose "." is itself and whose ".." is the current one; in order afterwards iff it was before and was not refused late; a name left behind earlier leaves a disk that no tree describes |
| FileSystems.FileSystem.Open | code/filesys/filesys.cc:239-256 | NULL iff the directory on disk (not the one in memory) lacks the name; otherwise the named node's header, whole if a file |
| FileSystems.FileSystem.WriteOpened | code/filesys/openfile.cc:75-79 | a write through an open file, also after late refusals, replaces exactly those bytes, keeps the file system in the order it was in, and leaves every other node and the header of every file, and so every other open file, as it was |
| FileSystems.FileSystem.ChangeDirectory | code/filesys/filesys.cc:477-492 | for every name: -1 iff it is missing; stopped by the disk iff a sector of the first 160 bytes, its header taken for a directory's, is not on the disk; otherwise those bytes are the current directory, for a directory on the disk just its table, and memory and disk agree whatever was left behind before; nothing is written |
| FileSystems.FileSystem.RemoveDirectory | code/filesys/filesys.cc:426-467 | as written, also after late refusals: -2 iff the name is missing, -1 iff the current directory on the disk is not empty, so that no directory on the disk in a slot from 2 on is ever removed; "." or ".." of an empty directory gives 0 and a disk that no tree describes; a name left behind gets past the question, is stopped iff the words where it points fail the assertion, and leaves a disk in order iff no other was left behind and no owned sector was cleared |
| Multiplication.Mult | code/machine/mipssim.cc:714-776 | hi:lo is exactly the 64-bit product, signed or unsigned as asked, for every pair of words |
| Multiplication.MultUnsigned | code/machine/mipssim.cc:740-761 | the loop, early exit and arithmetic shift included, computes the unsigned product |
| Multiplication.AddDouble | code/machine/mipssim.cc:748-751 | the hand-made carry adds two double words exactly |
| Multiplication.Negated | code/machine/mipssim.cc:765-772 | complement and carry negate the double word |
| BitOps.CombinedBits | code/machine/mipssim.cc:168-170 | and, or and exclusive or act on each of the 32 bits by itself |
| BitOps.ShiftLeftBits | code/machine/mipssim.cc:420-426 | SLL and SLLV move every bit up and bring zeros in |
| BitOps.ShiftRightArithmeticBits | code/machine/mipssim.cc:460-467 | SRA and SRAV move every bit down and repeat the sign |
| BitOps.ShiftRightLogicalBits | code/machine/mipssim.cc:493-515 | SRL and SRLV move every bit down and bring zeros in |
| BitOps.SignOfXor | code/machine/mipssim.cc:140-141 | the sign bit of an exclusive or says whether the signs differ |
| BitOps.AddOverflows | code/machine/mipssim.cc:138-155 | the overflow tests of ADD and ADDI hold iff the exact sum is no 32-bit integer |
| BitOps.SubOverflows | code/machine/mipssim.cc:519-526 | the overflow test of SUB holds iff the exact difference is no 32-bit integer |
| BitOps.ByteMasks | code/machine/mipssim.cc:258-261 | the masks of LB and LBU extend the low byte by sign or zeros, whatever the upper 24 bits, so that it does not matter whether char is signed |
| BitOps.HalfMasks | code/machine/mipssim.cc:277-280 | the same for LH and LHU |
| BitOps.JumpTarget | code/machine/mipssim.cc:243 | a jump keeps the top four bits of the address and replaces the rest |
| BitOps.ReplaceHighByte | code/machine/mipssim.cc:581-583 | SWR at an aligned address replaces the top byte of the word in memory |
| BitOps.ReplaceLowByte | code/machine/mipssim.cc:351-354 | LWR at an aligned address replaces the lowest byte of what the register holds |
| Instructions.OpTable | code/machine/mipssim.h:117-134 | jumps alone have the jump format; no primary opcode is a shift or RFE |
| Instructions.SpecialTable | code/machine/mipssim.h:141-150 | no secondary opcode is a jump, an immediate operation or RFE |
| Instructions.Decode | code/machine/mipssim.cc:651-704 | the fields make up the word; immediates are sign-extended; no word decodes to an opcode outside the interpreter's switch |
| InstructionCodes.DecodesByCode | code/machine/mipssim.h:117-150 | a word decodes to an instruction iff it has that instruction's own code in its opcode, secondary or condition field |
| InstructionCodes.DecodesToNothing | code/machine/mipssim.h:117-150 | which words decode to the unimplemented instruction, exactly |
| InstructionCodes.EncodedDecodes | code/machine/mipssim.cc:651-704 | decoding the word assembled for any instruction and any operands gives back the opcode and every operand the format has |
| Translation.Resolve | code/machine/translate.cc:186-264 | an access that resolves stays inside its page and inside memory, so the closing assertion never fails |
| TranslationLaws.ResolvesExactly | code/machine/translate.cc:186-264 | an access goes through iff it is aligned, a valid entry maps its page, that entry does not forbid a write, and the frame is below 256; the address is then 128 * frame + offset |
| TranslationLaws.FaultsExactly | code/machine/translate.cc:186-252 | each exception, iff: AddressError misaligned or past the table, PageFault no entry, ReadOnly a write to a read-only page, BusError no such frame, in this order |
| TranslationLaws.StepKeepsReadOnly | code/machine/translate.cc:243 | no instruction changes a byte of a page mapped read only, under different frames for different pages |
| Translation.SameResolve | code/machine/translate.cc:257-259 | the use and dirty bits that translation sets change no later translation |
| Translation.TlbAgrees | code/machine/translate.cc:210-241 | a TLB of page-table entries answers as the table on exactly the pages it holds and with a page fault on all others |
| Translation.FetchStored | code/machine/translate.cc:99-165 | reading back what was stored gives its low bytes |
| Translation.FlatWrite | code/machine/translate.cc:137-168 | with valid pages in distinct frames, a write changes exactly its own bytes of virtual memory |
| Translation.FlatRead | code/machine/translate.cc:86-122 | a read gives the little-endian number of the virtual bytes at its address |
| MachineSemantics.StepKeepsSound | code/machine/mipssim.cc:639-644 | after every instruction and every exception register 0 is 0 and the pending load is for a general register |
| InstructionLaws.EveryInstructionIsLawful | code/machine/mipssim.cc:135-617 | every instruction obeys its law, stated without the simulator's arithmetic: sums exact, trapping or congruent; products and quotients by their equations; bits one by one; when a branch is taken, where it or a jump goes and what it links; the bytes a load brings and a store leaves; each exception |
| InstructionLaws.HiLoIsRight | code/machine/mipssim.cc:385-401 | Hi and Lo together are the exact product, or quotient and remainder of the exact division |
| InstructionLaws.FetchRaises | code/machine/mipssim.cc:110-112 | a fetch that translation refuses raises that exception and does nothing else |
| MachineSemantics.CountersAdvance | code/machine/mipssim.cc:624-628 | after an instruction that succeeded PC is the old NextPC and PrevPC the old PC |
| MachineSemantics.ExceptionsLeaveNoTrace | code/machine/mipssim.cc:103-644 | restartability: at an exception memory, PC, NextPC, PrevPC, Hi, Lo and every register are as before, but for the pending load, now committed |
| MachineSemantics.BadAddressIsTheCulprit | code/machine/machine.cc:96-105 | after a translation exception the bad address register holds the address of an access that still resolves to just that exception; after any other it holds 0 |
| Restarts.ReadsSuffice | code/machine/mipssim.cc:135-617 | an instruction's effect depends on no register but the ones it reads, opcode by opcode |
| Restarts.TrapsCommit | code/machine/machine.cc:100-101 | an exception, and an interrupt in user mode, leaves the registers with just the pending load committed |
| Restarts.RestartIsTransparent | code/machine/machine.cc:96-105 | running with the pending load committed comes to the same as running straight on, whatever the handler did to the translation, if the instruction neither reads the load's register nor writes it at once |
| Restarts.CancelledIsTransparent | code/machine/mipssim.cc:135-617 | nor does it show when the instruction takes back what it reads of the register: register 0 as result or other operand, one register as both, an immediate that changes nothing, a branch to where the program goes anyway, a misaligned constant address |
| RestartWitnesses.EarlyCommitShows | code/machine/machine.cc:96-105 | for every other instruction and every register it touches there are translation, memory and registers with which the early commit shows |
| RestartWitnesses.TransparentIffUntouched | code/machine/machine.cc:96-105 | the exact condition, for every word taken as an instruction and every register: committing early never shows iff the instruction does not touch the register or takes back what it reads of it |
| MachineSemantics.PendingLoadArrives | code/machine/mipssim.cc:639-644 | a loaded value stands in its register after the next instruction, even one that wrote that register |
| MachineSemantics.LoadsAreDelayed | code/machine/mipssim.cc:262-264 | a load itself changes no general register but that of an earlier load |
| MachineSemantics.DivisionIsExact | code/machine/mipssim.cc:210-221 | quotient rounded toward zero and remainder with the dividend's sign; the one pair without a 32-bit quotient is the one left out |
| Machines.Machine.Translate | code/machine/translate.cc:186-264 | the exact answer, told by the entries, for page table and TLB alike; a fault changes nothing, a success only the use and dirty bits of the entry it used |
| Machines.Machine.ReadMem | code/machine/translate.cc:86-122 | TRUE iff the access resolves, with the bytes there; otherwise the exception is raised with the pending load committed |
| Machines.Machine.WriteMem | code/machine/translate.cc:137-168 | TRUE iff the access resolves, exactly its bytes changed; otherwise memory is untouched; a read-only page keeps every byte |
| Machines.Machine.DelayedLoad | code/machine/mipssim.cc:639-644 | the pending load reaches its register, another becomes pending, register 0 stays 0 |
| Machines.Machine.RaiseException | code/machine/machine.cc:96-105 | the registers as the handler finds them, and one call of the handler |
| Machines.Machine.CheckedAdd | code/machine/mipssim.cc:138-146 | ADD gives the exact sum or traps, iff it does not fit |
| Machines.Machine.CheckedAddImmediate | code/machine/mipssim.cc:148-156 | the same for ADDI |
| Machines.Machine.CheckedSub | code/machine/mipssim.cc:519-528 | the same for the difference of SUB |
| Machines.Machine.HiLo | code/machine/mipssim.cc:210-238 | quotient and remainder satisfy the division law, with the remainder in Hi; the same contract gives MULT and MULTU (lines 385-401) the exact product with its upper word in Hi, and MFHI, MFLO, MTHI, MTLO the register they name |
| Machines.Machine.LoadByte | code/machine/mipssim.cc:252-264 | the byte extended by sign or zeros becomes pending, for signed and unsigned char alike; or the exception |
| Machines.Machine.LoadHalf | code/machine/mipssim.cc:266-283 | the same for half words, odd addresses refused |
| Machines.Machine.LoadPart | code/machine/mipssim.cc:303-367 | LWL and LWR at aligned addresses; at others the assertion stops the simulator |
| Machines.Machine.StoreValue | code/machine/mipssim.cc:410-418 | SB, SH and SW store the low bytes of the register, or raise the exception and store nothing |
| Machines.Machine.StorePart | code/machine/mipssim.cc:539-596 | SWL and SWR at aligned addresses, read before written; at others the assertion stops the simulator |
| Machines.Machine.OneInstruction | code/machine/mipssim.cc:103-629 | for every word at the program counter the machine ends in the state that the reference step gives, which obeys the law of its instruction, and the handler is called exactly once on an exception, never otherwise |
| Interrupts.FiringKeepsOrder | code/machine/interrupt.cc:276-320 | firing the earliest pending interrupt keeps all firings in the order of their times, none early, none twice |
| Interrupts.Interrupt.Schedule | code/machine/interrupt.cc:252-261 | exactly one interrupt more is pending, strictly in the future |
| Interrupts.Interrupt.CheckIfDue | code/machine/interrupt.cc:276-320 | TRUE iff something was due (or the clock may advance to it) and it was not just the timer of an idle machine; then the earliest one fired, and out of user mode the pending load was committed; otherwise nothing changed, but that an advancing clock stands at a lone timer's time |
| Interrupts.Interrupt.FireAllDue | code/machine/interrupt.cc:163-164 | the loop ends; everything that was due has fired, nothing was lost, and nothing due is left but a lone timer in an idle machine |
| Interrupts.Interrupt.OneTick | code/machine/interrupt.cc:145-173 | time moves by 10 in system mode and by 1 otherwise, outside idle mode every interrupt still pending is strictly in the future, a pending load is committed iff an interrupt fired out of user mode, and a context switch follows iff one was asked for, before or by a handler that ran |
| Interrupts.Interrupt.SetLevel | code/machine/interrupt.cc:113-124 | time passes iff interrupts go from off to on, and then as in a tick; otherwise nothing changes but the level |
| Interrupts.Interrupt.Idle | code/machine/interrupt.cc:202-224 | the clock moves straight to the earliest interrupt; the machine halts iff nothing or only the timer is pending, and then with the clock at the timer's time if that lies ahead |
| Disks.ToBoundary | code/machine/disk.cc:176-182 | the time to the next sector boundary, less than one sector |
| Disks.ModuloDiff | code/machine/disk.cc:192-197 | the least number of slots until one of the sector's own |
| Disks.LatencyIsExact | code/machine/disk.cc:220-237 | 500 from the track buffer; otherwise the transfer starts at the earliest slot of the sector that begins after 500 ticks for every track crossed, and takes one slot |
| Disks.SeekLaw | code/machine/disk.cc:170-184 | a seek takes 500 ticks for each track that the head crosses |
| Disks.SeeksAddUp | code/machine/disk.cc:170-184 | seeks are symmetric, 500 to a neighbouring track, and additive over a track on the way |
| Disks.BufferHitsAreRight | code/machine/disk.cc:227 | the buffer is used iff the request is a read of the current track and the sector has fully passed the head since the buffer was started |
| Disks.BufferNeverSlower | code/machine/disk.cc:220-237 | a buffered read is never slower, and every latency lies between 500 and 31999 |
| Disks.Disk.ReadRequest | code/machine/disk.cc:113-129 | the sector's data, and one interrupt at exactly the latency from now |
| Disks.Disk.WriteRequest | code/machine/disk.cc:131-147 | one sector replaced, and one interrupt at exactly the latency from now |
| Disks.Disk.UpdateLast | code/machine/disk.cc:245-253 | a seek restarts the track buffer at the first slot boundary after 500 ticks for every track crossed; on the same track it goes on |
| Disks.Disk.HandleInterrupt | code/machine/disk.cc:155-158 | when the disk is idle again its track buffer has been running |
| SynchDiskProtocol.StepKeepsInv | code/filesys/synchdisk.cc:69-103 | every step of every thread and of the disk keeps lock, semaphore and disk in agreement |
| SynchDiskProtocol.EveryRunIsSafe | code/filesys/synchdisk.cc:69-103 | over every interleaving of any number of threads: "only one request at a time" never fails, disk and semaphore account for exactly the waiting threads, at most one, and each returned read got the latest earlier write |
| SynchDiskProtocol.CallsKeepOrder | code/filesys/synchdisk.cc:69-92 | calls that do not overlap take effect in the order they were made |
| SynchDiskProtocol.NeverStuck | code/filesys/synchdisk.cc:73-103 | no wake-up is lost: while a call is under way some step other than an Acquire can be taken |
| SynchDiskProtocol.StepsRunOut | code/filesys/synchdisk.cc:69-75 | each such step brings the call nearer its end, which comes after at most four |
| PostOffices.HandoffStep | code/machine/network.cc:64-89 | semaphore and woken worker stand for a full inbox, so no packet is overwritten or taken twice and no assertion fails |
| PostOffices.SendingStep | code/network/post.cc:292-297 | lock, device and semaphore agree throughout, so whoever holds the send lock and is about to send finds the device free |
| PostOffices.StepKeepsInv | code/network/post.cc:235-258 | every step of network, worker, readers and senders keeps the handoff, the boxes and the link in order |
| PostOffices.SenderSubsequence | code/machine/network.cc:113-124 | an order-preserving embedding of what arrived into what was sent gives one for every single sender |
| PostOffices.DeliveryIsFaithful | code/network/post.cc:235-258 | over every run the mails put into the boxes are, in order, the packets taken from the socket; each box hands out its share in order; of every sender's packets a subsequence is taken |
| PostOffices.EveryRunConserves | code/network/post.cc:269-301 | over every run the network was given the packets of those who called Send, each once, in the order in which they got the lock; and the packets not lost are, in order, in the boxes, in the worker's hand, in the inbox or in the socket |
| PostOffices.DeliveryStep | code/network/post.cc:235-258 | each step of the receiving half leaves one less to do, and only an arrival adds to it |
| PostOffices.DeliveryGoesOn | code/network/post.cc:235-258 | while a packet is not in its box some step takes one further, and when none is left all that came in are in the boxes |
| Tcp.OneAckEach | code/network/tcp.cc:645-663 | no transmission is answered twice |
| Tcp.AnsweredAccounted | code/network/tcp.cc:652-658 | an answer with the first byte plus one, once for each message taken, keeps the accounts |
| Tcp.OutstandingAcks | code/network/tcp.cc:586 | at most as many ACKs of an exchange are outstanding as it made transmissions, and one fewer if one of its own has come |
| Tcp.StaleAckLeavesOneMore | code/network/tcp.cc:586 | whenever something of an earlier exchange is under way there is a first turn that ends on a stale ACK, with one ACK of this exchange outstanding and a quota of none |
| Tcp.QuotaSufficesIffQuiet | code/network/tcp.cc:586 | the exact condition: the quota covers what an answered first turn leaves, whatever the peer does, iff nothing was under way before |
| Tcp.TokenMeansTaken | code/network/tcp.cc:589-592 | a token that passes the check answers a transmission with that first byte, below 127 |
| Tcp.TCPostOffice.CatchMail | code/network/tcp.cc:520-547 | at most the expected number is caught, in at most 20 polls for each, although every catch resets the count; -2 iff it was to catch any and the connection is being stopped |
| Tcp.TCPostOffice.TransmitUntilAnswered | code/network/tcp.cc:568-580 | at most limit transmissions, all of this message; when CatchMail is called at most attempts ACKs of the exchange are outstanding, or one more after a stale ACK, of which there is none if nothing was under way; a first turn that is answered is one of those the exact condition speaks of |
| Tcp.TCPostOffice.SendWait | code/network/tcp.cc:563-595 | true iff the connection was up throughout, an ACK came within the limit and, with a message, its token is the first byte plus one; the peer then took a transmission with this first byte, below 127; at most limit transmissions and (MAXCATCH + 1) * limit polls |
| Tcp.TCPostOffice.ReceiveAndAnswer | code/network/tcp.cc:647-659 | one message is taken and answered, or none |
| Tcp.TCPostOffice.CatchWithAnswer | code/network/tcp.cc:606-630 | every message taken is answered once, except the one that ends it; it ends on a stop iff the connection is being stopped |
| Tcp.TCPostOffice.ReceiveWait | code/network/tcp.cc:645-663 | true iff a message was taken and the connection is not being stopped; the message is new and from the right box |
| Tcp.CutString | code/network/tcp.cc:19-30 | the pieces joined are the string; all are full but perhaps the last, none is empty |

## Left out

- `BitMap`, `List`, `SynchList`, `Semaphore`, `Lock`, `Thread` and `Scheduler` are not among the repository's files; only the contracts their users rely on are modelled, `BitMap` with a body that meets its contract and the rest as steps of the protocols.
- Negative seek positions, and positions whose sum with the byte count exceeds a 32-bit int, are preconditions of `ReadAt` and `WriteAt`: the code does not guard them.
- FileHeaders.FileHeader.Deallocate: the body of the inner loop is not modelled, only its guard, which is never true.
- OpenFiles.OpenFile.WriteAt: for headers whose blocks are all there, as `Allocate` leaves them when the index blocks fit; a file with missing blocks stops at the disk's assertion. OpenFiles.OpenFile.ReadAt asks it only of the blocks that the request reaches into.
- FileSystems.FileSystem.ChangeDirectory: what the operations do while the bytes of something that is no directory are the current directory, and what they do to a disk that no tree describes, is not modelled.
- FileHeaders.FileHeader.AllocateDirectory, FileHeaders.FileHeader.Deallocate and FileHeaders.FileHeader.DeallocateDirectory: after a stop (a failed assertion, or an access past `dataSectors`) nothing is said about the bitmap in memory.
- The byte of padding in a stored directory entry is written as 0; the contents of fresh memory are arbitrary.
- Memory management, `DEBUG` output, listing and printing, statistics other than ticks, and the file-system stub: no properties live there.
- The open-file table helpers, `isFull` and `PrintFile`: they add only easy members.
- Machines.Machine.HiLo: the signed division of -2^31 by -1, which C leaves undefined, is a stop; other signed overflow is taken to wrap.
- Machines.Machine.OneInstruction: `Run`, the debugger and the kernel's exception handler are not modelled; the state at the end of an exception is the one the handler finds.
- Machines.Machine.LoadPart and Machines.Machine.StorePart: the unaligned cases of the inner switches cannot be reached past the assertions and have no body.
- Instructions.Decode: the Instruction object is a value, since nothing of it outlives the instruction.
- Big-endian hosts: the byte swaps of `WordToHost` are the identity here.
- Interrupts.Interrupt.OneTick: the context switch that ends it is reported, not modelled.
- Interrupts.Interrupt.Handler: a device's handler may schedule any number of interrupts and ask for a switch; a request with a time not in the future, which the code's assertion stops, is skipped.
- Disk timing uses unbounded integers: the truncation of `totalTicks` to int is not modelled, nor is the host file behind the disk or the build without a track buffer.
- `SynchDiskProtocol` and `PostOffices` are steps between values and not methods, since they are about every interleaving.
- PostOffices: packet lengths and the copying of payloads between buffers are not modelled; a packet is its sender, box and payload.
- Tcp: of a message only its box and first byte are modelled, and the link may deliver in any order, of which delivery in order is one case; payloads appear in `CutString` only.
- Tcp.TCPostOffice.ReceiveAndAnswer and Tcp.TCPostOffice.CatchWithAnswer: the loops need not end, so a bound on the number of polls looked at is an argument; what they keep holds for every bound.
- Exactly-once delivery of TCP messages rests on timing and is not promised; connection set-up and tear-down, files and strings built on `SendWait` add only easy members.
- COFF and NOFF converters, the disassembler and the old interpreter under `code/bin`, the console and the host system calls.
