# Verified models of panuti

A Dafny model of the parts of the system where most of the state, branching and arithmetic is, with proofs. Each file
is one module; `dafny verify dfyconfig.toml` checks them all.

| what | files |
|---|---|
| byte windows over a block device | `BlockBytes` |
| ext2 block tree: mapping, allocation with rollback, release, truncation | `Words`, `Ext2Tree`, `Ext2State`, `Ext2Room`, `Ext2Volume`, `Ext2Trim`, `Ext2Shrink`, `Arith` |
| ext2 reads and writes as a flat byte array | `Ext2File` |
| ext2 block bitmaps behind a one-block cache, deferred frees | `Bits`, `Ext2Bitmap`, `Ext2Refine` |
| ext2 directory blocks | `Ext2Dirent`, `Ext2DirentEdit` |
| optional values, in several models | `Options` |
| the registry's namespace | `Registry`, `RegistrySteps`, `RegistryOps`, `RegistryRename`, `RegistryPaths`, `RegistryNamespace`, `RegistryRun` |
| `getcwd` | `Getcwd` |
| the user heap | `HeapLayout`, `HeapRegion`, `HeapTable`, `HeapRun` |
| calendar arithmetic | `Calendar`, `Clock` |
| the glob matcher | `Glob` |
| kernel virtual ranges | `Vmalloc` |
| the calculator | `Calc` |
| the shell: tokens, grammar, parser, pipes | `PurLexer`, `PurGrammar`, `PurParse`, `PurTree`, `PurNet`, `PurWalk`, `PurWire`, `PurShell` |

How it is built. What the source changes step by step is a class with the source's fields, or a method over an array,
with the source's loops; a method's contract ties the new state to a pure step function of the old one (`S() == ...`)
or states the promise outright. What the source promises is then proved of the step functions, as lemmas, and over
whole runs (`Run` methods that take any list of operations). Ghost fields (`own`: which block the tree reaches at which
position; `lay`: the blocks that tile a heap region) record the structure the invariants speak about. What the
environment answers (a device that fails, an allocator that is out of memory, what `mmapan`, `handle_open` or a pipe
request returns) is a parameter or a free choice, so the claims hold for every answer.

Integer widths are written out where they matter: address slots and heap headers are little-endian 32-bit words, the
heap's test for room is the 32-bit sum, the calculator's `long` is 32 bits wide, the year of a date is cast to 32 bits.
The ISO 9660 stamp is the seven bytes of section 9.1.5 of ECMA-119.

## Where the code and its promise differ

* `pcr_glob_match` takes a `[` in the name for itself when its group fails, so for some names it refuses what a pattern
  means. It is right about every pattern on exactly the names that have no `[` before their last character
  (`Glob.ExactNames`); `Glob.FallsShort` gives the failing pattern for every other name.
* `ext2_free_blocks_from` writes indirect blocks without dropping the cached copy. Its claims are about the disk;
  `Ext2Shrink.CacheAfter` says exactly when the cached copy is still what the disk has: when the cached block named
  nothing that went. In `Ext2Shrink.StaleCopy` the indirect block stays in use and a lookup through the cache answers a
  block that has been released.
* `ext2_map_block_alloc` undoes a failed allocation by `ext2_free_slot`, which does nothing for an index the tree cannot
  hold. `Ext2Volume.Volume.MapBlockAlloc` says exactly when such a call leaves the inode as it was. A file write never
  makes one: every byte it may touch lies in a block the tree can hold (`Ext2File.InsideVolume`). `ext2_free_slot` also
  refuses the block count as an index, and `ext2_dirent_add` passes it exactly when the directory's size reaches into
  the last block of the volume (`Ext2File.DirectoryGrows`); `Ext2Shrink.HalfMade` is a volume on which that call leaves
  a block behind.
* `malloc` compares `brk + need` in 32 bits. `HeapTable.Heap.Malloc` says of every request answered with a pointer that
  it is served, everything live kept, exactly when the sum wraps in no region. When it wraps, a header is put behind the
  last block and `brk` goes back, and no arrangement of blocks then accounts for all that was live
  (`HeapTable.OverrunLoses`); `HeapTable.WrapAt` is `malloc(0xFFFFFFE8)` after one block. Runs stop at such a request.
* `registry_rename` over an existing name drops that name before the new one is linked. If memory runs out in between,
  the call reports an error and the replaced entry is gone, and only then (`RegistryNamespace.Namespace.Rename`);
  `RegistryRun.ReplacedIsLost` is a rename that loses one.
* `getcwd` in a deleted directory writes `/`. What it writes leads back to the directory exactly when that has not been
  deleted (`Getcwd.ResolvesBack`; `Getcwd.HeldAndDeleted` is a held directory that has been).
* `mkdir` with a trailing slash on a directory that is there already reports success and makes nothing: exactly the
  successes whose walk ends at something do (`RegistryRun.MkdirAt`; one of them is `RegistryRun.NothingMade`).
* `ext2_free_block` takes a block that holds a bitmap, which is then handed out like any other and zeroed.
  `Ext2Bitmap.Allocator.AllocBlock` says exactly when a hand-out leaves cache and counts right: unless the block is the
  bitmap of the group it was found in, or that of another group in which a bit is set. `Ext2Bitmap.BitmapBlockFreed` is
  a run that ends with such a hand-out, and `Ext2Bitmap.Run` shows that there is none unless a bitmap block is freed.
* The conversion of a day into a date computes the year in `int`. It is right exactly from March of year -2^31 to the
  end of year 2^31 - 1 (`Calendar.CivilExactly`), and adds past the range, which C leaves undefined, exactly in January
  and February of the years that are 2^31 modulo 2^32 (`Calendar.UndefinedExactly`). `Calendar.YearsTooMany` and
  `Calendar.YearsTooFew` are days on which it fails at either end; 64-bit clock readings reach them
  (`Clock.UndefinedReached`).
* `pur`'s help says that an output reaches every command downstream of it. The pipe of a statement reaches every command
  on its right exactly when that is a command, a pipe of two commands, or a group of these (`PurTree.OwnReaches`); a
  pipe further in, exactly when there is no pipe on its right (`PurTree.InnerReaches`); so a statement keeps the promise
  exactly when both hold throughout (`PurTree.DownstreamExactly`). `PurTree.PassedOver` and `PurTree.GroupPassedOver`
  are statements that break it, one in each way; `PurTree.BothReached` keeps it with a pipe on the right. A group that
  is a whole statement is not wired at all (`PurTree.LoneGroupUnwired`, which loses a pipe in `PurTree.LoneGroupLoses`).
  The code for too many streams is never reported: fourteen pipes are too few for it (`PurNet.AddAllKeeps`).

## Model

| member | source | states |
|---|---|---|
| BlockBytes.BlockDev.BlockReadBytes | kernel/kernel/block/utils.c:9-43 | a byte window read over whole blocks is exactly those bytes; a window past the end is refused, and only such a window |
| BlockBytes.BlockDev.BlockWriteBytes | kernel/kernel/block/utils.c:45-89 | a byte window written over whole blocks changes exactly that window (partly covered blocks are read, patched and written whole); any failure leaves the device as it was |
| BlockBytes.PatchThroughScratch | kernel/kernel/block/utils.c:66-89 | patching a copied run of blocks and putting it back is patching the device |
| BlockBytes.ReadIsBlock | kernel/kernel/fs/ext2/helpers.c:20-32 | the window of one aligned block holds that block of the volume |
| BlockBytes.WriteIsUpdate | kernel/kernel/fs/ext2/helpers.c:34-46 | writing one aligned block changes that block of the volume and no other: the byte device refines the array of blocks used below |
| Words.StoredEntry | kernel/kernel/fs/ext2/helpers.c:231-263 | storing an address slot of an indirect block changes that slot and no other |
| Words.EntryInBytes | kernel/kernel/fs/ext2/helpers.c:165-199 | slot k of an indirect block is the 32-bit number in its bytes 4k to 4k + 3, least significant first |
| Words.AllZeroIsNoEntries | kernel/kernel/fs/ext2/helpers.c:439-468 | the byte scan for an empty indirect block says exactly that no address slot is in use |
| Ext2Tree.SlotOfIndex | kernel/kernel/fs/ext2/helpers.c:281-321 | the slot arithmetic numbers the leaf positions of the tree without gaps or repeats, and leaves the tree exactly for the indexes it cannot hold |
| Ext2Tree.SlotInDigits | kernel/kernel/fs/ext2/helpers.c:281-321 | block 12 + a hangs under the single indirect block at entry a, the blocks from 12 + n on under the double one and those from 12 + n + n^2 on under the triple one, at the digits of the rest in base n |
| Ext2Tree.ReachedOnce | kernel/kernel/fs/ext2/helpers.c:165-357 | no physical block is reached at two positions of a tree, as data or as an indirect block |
| Ext2Tree.StoreMovesOneNode | kernel/kernel/fs/ext2/helpers.c:231-263 | a store into an indirect block moves the one node below that slot and no other node of the tree |
| Ext2Tree.RepAdd | kernel/kernel/fs/ext2/helpers.c:400-424 | hanging a fresh zeroed block under an indirect block adds exactly that block to the tree |
| Ext2Tree.RepRemove | kernel/kernel/fs/ext2/helpers.c:528-563 | clearing the slot of a childless block takes exactly that block out of the tree |
| Ext2Tree.CutIsUnique | kernel/kernel/fs/ext2/helpers.c:359-437 | two trees cut from one tree along the same path, neither holding an empty indirect block, are the same tree: why pruning undoes a half-made allocation |
| Ext2State.FlushKeeps | kernel/kernel/fs/ext2/helpers.c:1764-1776 | clearing the queued blocks in the bitmap frees nothing the inode still reaches |
| Ext2State.PruneStep | kernel/kernel/fs/ext2/helpers.c:541-563 | going back up, the lowest indirect block on the way is either in use or empty and pruned, and everything else stays |
| Ext2State.GrownExisting | kernel/kernel/fs/ext2/helpers.c:400-424 | a step down the allocation path onto a block that is there keeps the account of what was added |
| Ext2State.RolledBack | kernel/kernel/fs/ext2/helpers.c:429-437 | pruning what a stuck allocation added gives back the slots and the whole tree it started from |
| Ext2State.OthersMapped | kernel/kernel/fs/ext2/helpers.c:359-437 | a change along the way to one logical block leaves the mapping of every other one alone |
| Ext2Room.ExtraCount | kernel/kernel/fs/ext2/helpers.c:359-437 | a tree grown along a way has as many blocks more as the way lacked exactly when nothing is missing on it any more, and fewer otherwise |
| Ext2Volume.Volume.IndirectEntry | kernel/kernel/fs/ext2/helpers.c:165-199 | an address is read, from any block, exactly when block and slot are in range and the address is one of the volume; it is the one of the cached copy if that is the block cached, and so the one on disk when the copy is right |
| Ext2Volume.Volume.IndirectPeek | kernel/kernel/fs/ext2/helpers.c:201-229 | an address read without the cache is the one on disk; zero block, a block past the end and a slot past the block are refused |
| Ext2Volume.Volume.IndirectStore | kernel/kernel/fs/ext2/helpers.c:231-263 | the slot is changed on disk and the cache given up when it held that block |
| Ext2Volume.Volume.BlockEmpty | kernel/kernel/fs/ext2/helpers.c:439-468 | answers whether no address slot is in use |
| Ext2Volume.Volume.MapBlock | kernel/kernel/fs/ext2/helpers.c:323-357 | finds the block of a logical block exactly when the tree maps it, and then that block |
| Ext2Volume.Volume.AllocBlock | kernel/kernel/fs/ext2/helpers.c:1582-1651 | takes a clear block and zeroes it, or there is none |
| Ext2Volume.Volume.FreeBlock | kernel/kernel/fs/ext2/helpers.c:1719-1762 | queues a block in range and not queued already, and refuses every other |
| Ext2Volume.Volume.PendingFreeFlush | kernel/kernel/fs/ext2/helpers.c:1764-1776 | clears exactly the queued blocks and changes no mapping |
| Ext2Volume.Volume.Descend | kernel/kernel/fs/ext2/helpers.c:494-526 | the indirect blocks on the way to a logical block, and the block at the end or the hole |
| Ext2Volume.Volume.PruneUp | kernel/kernel/fs/ext2/helpers.c:541-563 | frees every indirect block left empty on the way up and no other; the count returned is the number of blocks the tree lost |
| Ext2Volume.Volume.FreeSlot | kernel/kernel/fs/ext2/helpers.c:470-566 | releases one logical block and the indirect blocks this leaves empty; no empty one stays; exactly when it refuses; nothing else changes |
| Ext2Volume.Volume.AllocDown | kernel/kernel/fs/ext2/helpers.c:359-427 | the way down, with what was made so far when it gets stuck |
| Ext2Volume.Volume.Undo | kernel/kernel/fs/ext2/helpers.c:429-437 | the failure path restores the tree and the slots of before, for every index the tree can hold and below the block count |
| Ext2Volume.Volume.MapBlockAlloc | kernel/kernel/fs/ext2/helpers.c:359-437 | on success the logical block is mapped, a new block is zeroed, every other index maps as before, and hdr.blocks counts the blocks of the tree; it succeeds exactly when there are as many free blocks as the tree lacks on the way; out of room, slots, tree and mapping are those of before; outside the tree, the exact condition for that |
| Ext2Volume.SectorCount | kernel/kernel/fs/ext2/helpers.c:16-18 | hdr.blocks is the number of 512-byte sectors of the blocks reached, data and indirect |
| Ext2Trim.DoomOfChildren | kernel/kernel/fs/ext2/helpers.c:576-662 | an indirect block goes exactly when everything hanging from it goes |
| Ext2Trim.TrimmedTree | kernel/kernel/fs/ext2/helpers.c:576-733 | with the entries of what goes cleared, what is left is a tree of exactly the blocks that stay |
| Ext2Trim.TrimmedIsTight | kernel/kernel/fs/ext2/helpers.c:576-662 | no indirect block is left empty |
| Ext2Trim.TrimmedMapping | kernel/kernel/fs/ext2/helpers.c:665-733 | exactly the logical blocks of the range have become holes |
| Ext2Shrink.FreeEntry | kernel/kernel/fs/ext2/helpers.c:599-641 | one entry: its subtree is trimmed, and it goes exactly when everything below it is in the range |
| Ext2Shrink.FreeLevel | kernel/kernel/fs/ext2/helpers.c:576-662 | one indirect block: its subtree trimmed, written back when an entry went, reported empty exactly when it goes itself, the count that of the blocks queued |
| Ext2Shrink.FreeDirects | kernel/kernel/fs/ext2/helpers.c:665-690 | the direct slots of the range are cleared and their blocks queued |
| Ext2Shrink.FreeBlocksFrom | kernel/kernel/fs/ext2/helpers.c:665-733 | every index of the range is unmapped on disk, every other one maps as before, no indirect block is empty, the count is that of the blocks the tree lost; and exactly when the cached indirect block is still what the disk has |
| Ext2Shrink.CacheAfter | kernel/kernel/fs/ext2/helpers.c:643-646 | after the direct write of containers the cached copy is what the disk has exactly when the cached block named nothing that went, and is then still an indirect block in use |
| Ext2Shrink.StaleCopy | kernel/kernel/fs/ext2/helpers.c:599-646 | blocks 12 and 13 written, 13 looked up and released: the indirect block stays in the tree, its cached copy differs from the disk, and a lookup of 13 through the cache answers the block released |
| Ext2Shrink.HalfMade | kernel/kernel/fs/ext2/helpers.c:359-476 | a volume of 13 blocks, one of them free: allocating logical block 13 fails and leaves a block in the tree |
| Ext2File.MappedOnce | kernel/kernel/fs/ext2/helpers.c:323-357 | two logical blocks never share a physical one |
| Ext2File.InsideVolume | kernel/kernel/fs/ext2/ext2.c:1263-1300 | a byte within the volume lies in a block whose number is below the block count and below what the tree can hold |
| Ext2File.DirectoryGrows | kernel/kernel/fs/ext2/helpers.c:964-1020 | the index at which a directory grows is one the tree can hold, and is the block count exactly when the size reaches into the last block of the volume |
| Ext2File.PatchedBytes | kernel/kernel/fs/ext2/ext2.c:1415-1440 | a chunk written into one mapped block changes the bytes of its window and no other byte of the file |
| Ext2File.ChunkBytes | kernel/kernel/fs/ext2/ext2.c:1233-1256 | the bytes a read takes from one block, or zeros from a hole |
| Ext2File.WrittenContent | kernel/kernel/fs/ext2/ext2.c:1263-1494 | with zeros past the size, a write makes of the file what it makes of a flat zero-extended array, and leaves zeros past the new size |
| Ext2File.HoleCut | kernel/kernel/fs/ext2/ext2.c:1461-1475 | a claimed block that holds what its hole read as can be given back without any byte changing |
| Ext2File.File.Read | kernel/kernel/fs/ext2/ext2.c:1189-1261 | as many bytes as were asked for (a longer request cut to 2^31 - 1) or as there are up to the size, none past it; each is the byte of the flat array at its place, and no byte changes |
| Ext2File.File.MapRange | kernel/kernel/fs/ext2/ext2.c:1332-1372 | the first pass maps every block of the range exactly when there are as many free blocks as the tree lacks for it, data and indirect; either way it changes no byte |
| Ext2File.File.Unclaim | kernel/kernel/fs/ext2/ext2.c:1461-1489 | a write that cannot go through gives back what it mapped: every mapping is that of before |
| Ext2File.File.WriteChunk | kernel/kernel/fs/ext2/ext2.c:1415-1440 | one block: whole, or read, patched and written back; exactly the bytes of the window change |
| Ext2File.File.WriteData | kernel/kernel/fs/ext2/ext2.c:1395-1444 | the last pass puts the data, and only the data, into the file |
| Ext2File.File.Write | kernel/kernel/fs/ext2/ext2.c:1263-1494 | all of the data lands, or none and the file reads as before; it lands exactly when the range is within the volume, the size can be recorded, and there are as many free blocks as the tree lacks for the range; a longer request is cut to 2^31 - 1 bytes |
| Ext2File.ReadBack | kernel/kernel/fs/ext2/ext2.c:1189-1494 | what was written is read back, windows untouched read as before, and gaps read as zeros |
| Ext2File.Run | kernel/kernel/fs/ext2/ext2.c:1189-1494 | over every run of reads and writes, each read returns what the same run on a flat byte array returns, its length and every byte of it said of the content at that moment; each write goes through exactly when it fits |
| Ext2Bitmap.BitChanged | kernel/kernel/fs/ext2/helpers.c:1582-1651 | a bit changed in the cached bitmap changes that bit of the logical one (disk overlaid by the cache) and no other |
| Ext2Bitmap.WipedCounted | kernel/kernel/fs/ext2/helpers.c:1582-1651 | zeros over a block leave the counts right exactly when they wipe out no set bit of a bitmap |
| Ext2Bitmap.PlaceOfBlock | kernel/kernel/fs/ext2/helpers.c:1653-1682 | exactly the blocks the allocator may hand out can be freed, and each has one place in the bitmaps |
| Ext2Bitmap.FreeableExactly | kernel/kernel/fs/ext2/helpers.c:1653-1682 | exactly the blocks of the volume in a group with a bit for them, and behind the tables of group 0, can be freed |
| Bits.BitInByte | kernel/kernel/fs/ext2/helpers.c:1607-1617 | bit i of a bitmap is bit i % 8, counted from the least significant, of byte i / 8 |
| Bits.BitIsWorth | kernel/kernel/fs/ext2/helpers.c:1607-1620 | setting a clear bit adds its worth to the byte, clearing a set one takes it away |
| Ext2Bitmap.LogicalIsBytes | kernel/kernel/fs/ext2/helpers.c:1582-1651 | a bit of the logical bitmap is that bit of the bytes of its group, cached or on disk |
| Ext2Bitmap.FlushBetween | kernel/kernel/fs/ext2/helpers.c:1719-1776 | between two hand-outs of one block lies a flush that had it in its queue |
| Ext2Bitmap.Allocator.BitmapSync | kernel/kernel/fs/ext2/helpers.c:735-751 | writes the cached bitmap back if dirty; the logical bitmap never changes, and a failed write changes nothing |
| Ext2Bitmap.Allocator.BitmapGet | kernel/kernel/fs/ext2/helpers.c:1537-1561 | brings a bitmap into the cache, writing the old one back first; the logical bitmap never changes |
| Ext2Bitmap.Allocator.AllocInGroup | kernel/kernel/fs/ext2/helpers.c:1586-1648 | takes the first clear usable bit of the group: bit i % 8 of byte i / 8 was clear, that byte has 2^(i % 8) more and no other byte of the bitmap has changed; or the group has none, or the device failed and nothing changed; cache and counts are right afterwards exactly when the zeros did no harm |
| Ext2Bitmap.Allocator.AllocBlock | kernel/kernel/fs/ext2/helpers.c:1582-1651 | hands out the first clear block in turn, from the group of the last hand-out on, with zeros in it, its bit in the bytes of the bitmap set and both counts one less; refuses only when the device failed or no block is free; counts stay the numbers of clear bits exactly when the block is not a bitmap whose loss matters |
| Ext2Bitmap.Allocator.FreeBlock | kernel/kernel/fs/ext2/helpers.c:1719-1762 | queues exactly a block that has a place and is not queued already, if the queue can grow; a block that holds a bitmap is queued too, and only then may one be handed out |
| Ext2Bitmap.Allocator.FreeBlockNow | kernel/kernel/fs/ext2/helpers.c:1684-1717 | clears one set bit, 2^(i % 8) in byte i / 8 of the bitmap of its group, both counts one more, or changes nothing; counts stay right; and exactly when a bitmap block loses its bit |
| Ext2Bitmap.Allocator.PendingFreeFlush | kernel/kernel/fs/ext2/helpers.c:1764-1776 | clears only queued blocks, all of them unless the device fails, and empties the queue |
| Ext2Bitmap.Run | kernel/kernel/fs/ext2/helpers.c:1537-1776 | over every run, whatever the device does, each operation does what it is for or could not; the counts are the numbers of clear bits of the logical bitmap and a block is not handed out again before a flush had it in its queue, up to the hand-out of a bitmap block; whether that one does harm, exactly; and none without a free of one |
| Ext2Bitmap.BitmapBlockFreed | kernel/kernel/fs/ext2/helpers.c:1582-1776 | a bitmap block freed, flushed and handed out: its zeros are not the bitmap the cache says is on disk |
| Ext2Refine.LogicalFits | kernel/kernel/fs/ext2/helpers.c:1582-1651 | the logical bitmap of the groups has one bit for every block of each group |
| Ext2Refine.TookIsSet | kernel/kernel/fs/ext2/helpers.c:1582-1651 | a hand-out sets one clear bit of the flat bitmap the block tree works on, and free blocks are one fewer |
| Ext2Refine.NoneFreeIsFull | kernel/kernel/fs/ext2/helpers.c:1582-1651 | no group has a block to give exactly when no bit of the flat bitmap is clear |
| Ext2Refine.FlushIsClear | kernel/kernel/fs/ext2/helpers.c:1764-1776 | a flush clears just the queued bits of the flat bitmap |
| Ext2Dirent.ParseConcat | kernel/kernel/fs/ext2/helpers.c:767-789 | records side by side and a tail of zeros parse into just those records |
| Ext2Dirent.ParseIsConcat | kernel/kernel/fs/ext2/helpers.c:767-789 | what parses is what is there: records side by side, then a tail |
| Ext2Dirent.DirentWrite | kernel/kernel/fs/ext2/helpers.c:791-809 | a whole record written, zeros first, the bytes around it kept |
| Ext2Dirent.NewRecordBytes | kernel/kernel/fs/ext2/helpers.c:791-809 | the record in bytes: inode and length least significant byte first, length of the name, type, name, zeros |
| Ext2DirentEdit.Scan | kernel/kernel/fs/ext2/helpers.c:840-892 | one pass over the block: corrupt, name taken, or where holes, slack and tail are |
| Ext2DirentEdit.EditInserts | kernel/kernel/fs/ext2/helpers.c:894-933 | whichever way room is made, exactly one name goes in and every other stays in its place |
| Ext2DirentEdit.EditedTypes | kernel/kernel/fs/ext2/helpers.c:894-933 | the new record has the name, the inode and the type asked for; a record cut down for it keeps its type and every other stays as it is |
| Ext2DirentEdit.DirentPlace | kernel/kernel/fs/ext2/helpers.c:840-934 | the block after placing is the old one with the one edit its verdict says |
| Ext2DirentEdit.ExistsExactly | kernel/kernel/fs/ext2/helpers.c:840-934 | EXISTS exactly when a record in use has the name; no verdict but success comes with a change |
| Ext2DirentEdit.FullExactly | kernel/kernel/fs/ext2/helpers.c:840-934 | a well-formed block refuses a fresh name exactly when no hole is as long as the record, no record in use has that much behind what it needs itself, and the tail is shorter |
| Ext2DirentEdit.PlacedAddsOne | kernel/kernel/fs/ext2/helpers.c:840-934 | placing keeps the block well formed and adds exactly one live (name, inode) pair |
| Ext2DirentEdit.DirentRemove | kernel/kernel/fs/ext2/helpers.c:1106-1147 | the first record with the name, and the hole behind it, become one hole; nothing else changes |
| Ext2DirentEdit.RunLength | kernel/kernel/fs/ext2/helpers.c:1106-1147 | what becomes a hole is as long as the record and the hole right behind it, if there is one |
| Ext2DirentEdit.ClearingRemoves | kernel/kernel/fs/ext2/helpers.c:1106-1147 | clearing that record takes out the first entry under the name and no other |
| Ext2DirentEdit.RemovalTakesOne | kernel/kernel/fs/ext2/helpers.c:1106-1147 | a name is found exactly when it is live; the block stays well formed and loses that one pair |
| Ext2DirentEdit.PlaceThenRemove | kernel/kernel/fs/ext2/helpers.c:840-1147 | a name placed and removed again: the live pairs are those of before, in the same order |
| Registry.WithoutEntries | kernel/kernel/handle/registry.c:583-603 | a list without a name holds the other entries, names still distinct |
| RegistrySteps.PutBase | kernel/kernel/handle/registry.c:111-142 | linking a free name keeps names unique and every reference count exact |
| RegistrySteps.DetachBase | kernel/kernel/handle/registry.c:583-603 | taking an entry out, its reference kept in hand, keeps both |
| RegistrySteps.LastIsEmpty | kernel/kernel/handle/registry.c:509-527 | a directory whose last reference goes has been deleted and has only its two dots |
| RegistrySteps.UnrefKeeps | kernel/kernel/handle/registry.c:509-527 | dropping a reference keeps every invariant, through the whole cascade along `..`; only deleted inodes go |
| RegistrySteps.LivesExactly | kernel/kernel/handle/registry.c:917-937 | an inode exists exactly as long as it is the root, is held, or is named from another directory |
| RegistryOps.MadeKeeps | kernel/kernel/handle/registry.c:237-281 | creating an entry in a directory still in the tree keeps tree and counts |
| RegistryOps.MadeHas | kernel/kernel/handle/registry.c:237-281 | the one new entry, and the two dots of a new directory; no other entry, parent or inode changes |
| RegistryOps.MakingUndone | kernel/kernel/handle/registry.c:252-277 | the rollback of a creation that fails partway restores the state of before |
| RegistryOps.CutFacts | kernel/kernel/handle/registry.c:633-670 | what is cut off is named once, by its parent, and is empty if a directory |
| RegistryOps.UnlinkKeeps | kernel/kernel/handle/registry.c:633-670 | unlinking keeps tree and counts, whatever goes with the last reference |
| RegistryOps.LinkKeeps | kernel/kernel/handle/registry.c:672-727 | a second name for a file keeps tree and counts |
| RegistryRename.MovedClimb | kernel/kernel/handle/registry.c:904-912 | after a move, the climb from every directory still ends at the root |
| RegistryRename.MovedHas | kernel/kernel/handle/registry.c:885-914 | a move takes the old name out, puts the new one in and leads `..` of a directory to its new parent; no other entry changes |
| RegistryRename.MovedKeeps | kernel/kernel/handle/registry.c:885-914 | a move keeps the tree and every count |
| RegistryNamespace.Namespace.constructor | kernel/kernel/handle/registry.c:154-163 | the root with its two dots satisfies every invariant |
| RegistryNamespace.Namespace.LinkDirent | kernel/kernel/handle/registry.c:111-142 | an entry is linked exactly when its name is 1 to 255 bytes long and memory lasts |
| RegistryNamespace.Namespace.DetachEntry | kernel/kernel/handle/registry.c:583-603 | the first entry of the name is taken out and its reference handed over |
| RegistryNamespace.Namespace.InodeUnref | kernel/kernel/handle/registry.c:509-527 | the recursive release refines dropping one reference with all that follows from it |
| RegistryNamespace.Namespace.DirHasAncestor | kernel/kernel/handle/registry.c:743-757 | terminates, and is true exactly when the second directory is the first or above it |
| RegistryNamespace.Namespace.Unlink | kernel/kernel/handle/registry.c:633-670 | succeeds exactly for an entry that may go (not a dot, not covered, an empty directory if one), and then exactly that entry is gone; any refusal changes nothing, and its code says which test failed |
| RegistryNamespace.Namespace.Link | kernel/kernel/handle/registry.c:672-727 | succeeds exactly when allowed and memory lasts; exactly that entry is new; any refusal changes nothing, and its code says which test failed |
| RegistryNamespace.Namespace.Rename | kernel/kernel/handle/registry.c:759-915 | succeeds exactly when allowed; then exactly the one entry has moved; a refusal has the code of the test that failed and changes nothing, except exactly when only memory was wanting and there was an entry to replace, which is then gone |
| RegistryNamespace.Namespace.Move | kernel/kernel/handle/registry.c:885-914 | the order of linking, unlinking and leading `..` elsewhere comes to the one move |
| RegistryNamespace.Namespace.MakeEntry | kernel/kernel/handle/registry.c:237-281 | makes the whole entry or nothing, at whichever allocation fails |
| RegistryNamespace.Namespace.WalkPath | kernel/kernel/handle/registry.c:172-313 | a path leads exactly where its names do, one entry after the other, from the root when it begins with a slash and from the start when not; when asked, the last name is made in the directory the part before it leads to |
| RegistryPaths.WalkExactly | kernel/kernel/handle/registry.c:172-313 | the walk ends at an inode exactly when the names of the path lead there through uncovered directories, and it is a directory if the path ends in a slash |
| RegistryPaths.NameExactly | kernel/kernel/handle/registry.c:172-313 | a single name resolved from a directory leads exactly to what the entry of that name in it does |
| RegistryPaths.RelativeOn | kernel/kernel/handle/registry.c:172-313 | p/q, p relative, is q resolved from where p leads |
| RegistryPaths.FreeExactly | kernel/kernel/handle/registry.c:172-313 | the last name is free exactly when the part before it leads to a directory in the tree that lacks it |
| RegistryRun.MkdirAt | kernel/kernel/handle/registry.c:315-370 | succeeds exactly when the parent is a directory in the tree, the last name is free and short enough and memory lasts, or the path ends in a slash and is there already; makes one directory, under the last name in the directory the part before it leads to, and exactly in the last case, or on failure, nothing |
| RegistryRun.NothingMade | kernel/kernel/handle/registry.c:315-370 | with d in the root and no memory, making d/ reports success and making d fails; nothing changes |
| RegistryRun.ReplacedIsLost | kernel/kernel/handle/registry.c:845-888 | two files in the root and no memory: the rename of one over the other fails, and the other is gone |
| RegistryRun.Run | kernel/kernel/handle/registry.c:111-937 | over every run of mkdir, link, unlink, rename, resolve, retain and release, on every return path, each operation succeeds exactly when it can, all invariants hold, and the references held outside are exactly those the callers hold |
| RegistryRun.OneName | kernel/kernel/handle/registry.c:633-914 | a directory in the tree other than the root has exactly one name, in the directory its `..` leads to |
| RegistryRun.NoCycle | kernel/kernel/handle/registry.c:743-757 | of two different directories at most one is above the other |
| RegistryRun.DeletedIsOut | kernel/kernel/handle/registry.c:633-670 | a deleted directory is empty, is nobody's parent in the tree, and nothing names it |
| Getcwd.NameFound | kernel/kernel/syscall/handlers/getcwd.c:45-80 | the parent's list has a directory in the tree under exactly the name found |
| Getcwd.NameLost | kernel/kernel/syscall/handlers/getcwd.c:45-80 | the parent's list has no entry for a directory that has been deleted |
| Getcwd.PathLeads | kernel/kernel/syscall/handlers/getcwd.c:45-106 | the names met on the climb, walked from the root, lead to the directory |
| Getcwd.LiveResolves | kernel/kernel/handle/registry.c:172-313 | resolving the path of a directory in the tree gives back that directory, from anywhere |
| Getcwd.ResolvesBack | kernel/kernel/syscall/handlers/getcwd.c:45-106 | resolving what getcwd writes gives back the same directory exactly when it has not been deleted |
| Getcwd.Getcwd | kernel/kernel/syscall/handlers/getcwd.c:14-108 | succeeds exactly when the path fits the buffer and the depth and scratch limits, writes exactly that path (a bare slash for a deleted directory) and a NUL, and writes nothing otherwise |
| Getcwd.HeldAndDeleted | kernel/kernel/syscall/handlers/getcwd.c:45-106 | a directory held and unlinked, in which getcwd writes the path of the root |
| HeapLayout.FreeBounds | libc/stdlib/malloc_private.h:26-44 | free blocks are listed in address order, inside the region, on multiples of eight, and do not overlap |
| HeapLayout.LinksAreClear | libc/stdlib/malloc_private.h:26-44 | the link word in a free payload is no header word |
| HeapRegion.MergedPrev | libc/stdlib/free.c:36-45 | the block before takes the freed one in |
| HeapRegion.MergedNext | libc/stdlib/free.c:47-55 | the freed block takes in the one after it |
| HeapRegion.Closed | libc/stdlib/free.c:57-65 | with prev_size repaired and the block listed the region is in order again, and the payloads in use are those around it |
| HeapRegion.TakenFront | libc/stdlib/malloc.c:35-52 | the front of a long block is taken and the rest has its place in the list |
| HeapRegion.Carved | libc/stdlib/malloc_util.c:114-138 | a block carved off the end extends the tiling by just that block |
| HeapRegion.FitIsListed | libc/stdlib/malloc.c:28-63 | a free block long enough is in the free list |
| HeapRegion.PayloadWritten | libc/stdlib/malloc.c:11-85 | a write into a payload in use disturbs no header, link or other payload |
| HeapTable.Heap.FlistRemove | libc/stdlib/malloc_util.c:35-55 | the list without the block, only link words written |
| HeapTable.Heap.FlistReplace | libc/stdlib/malloc_util.c:58-78 | the list with the new block in the old one's place |
| HeapTable.Heap.FlistInsert | libc/stdlib/malloc_util.c:80-95 | the list with the block where its address says |
| HeapTable.Heap.RegionOf | libc/stdlib/malloc_util.c:97-109 | the region an address lies in, if any |
| HeapTable.Heap.Bump | libc/stdlib/malloc_util.c:114-138 | a block is carved exactly when the 32-bit sum is no more than the size; then the header, the new brk and the payload, and, when the sum does not wrap, the region in order with that block behind the others |
| HeapTable.Heap.Grow | libc/stdlib/malloc_util.c:144-188 | a new region of the wanted size is appended, or nothing changes, exactly when a limit is reached or both requests were refused |
| HeapTable.WantIs | libc/stdlib/malloc_util.c:144-165 | what is asked of the kernel: whole pages, a megabyte at least, less than a page too much; nothing when rounding up wraps |
| HeapTable.Heap.FindFit | libc/stdlib/malloc.c:28-63 | the first free block in the list that is long enough, or there is none |
| HeapTable.NeedIs | libc/stdlib/malloc.c:11-24 | the block for a request is 16 bytes, or the least multiple of eight that holds header and payload |
| HeapTable.Heap.TakeFit | libc/stdlib/malloc.c:34-58 | one new live payload of exactly the block needed when 16 bytes or more are left, which are one free block right behind it, and else of the whole block; all others kept |
| HeapTable.Heap.Free | libc/stdlib/free.c:13-66 | merges both ways: exactly the payload of that address is no longer live, every other keeps its bytes; other pointers are ignored |
| HeapTable.Heap.Malloc | libc/stdlib/malloc.c:11-85 | a pointer answered is an 8-aligned new payload, at least as long as asked and less than 16 bytes longer than its block needs, from the first free block long enough, else the end of the first region with room, else a new region; apart from every live one, whose bytes stay, exactly when brk + need wraps in no region; 0, nothing changed, exactly when the size is too large or there is no room and nothing wraps; a request that wraps is answered, and exactly what it does |
| HeapTable.OverrunLoses | libc/stdlib/malloc_util.c:114-138 | once a request has wrapped, no arrangement of blocks has all that was live |
| HeapTable.WrapAt | libc/stdlib/malloc.c:66-74 | malloc(0xFFFFFFE8) after one block of 0x100 bytes: brk goes back to 0xF0 and the payload is not served |
| HeapTable.Heap.Realloc | libc/stdlib/realloc.c:12-41 | the first min(old, new) bytes are kept, the old payload is released, every other keeps its bytes; 0 exactly for a pointer with a size of 0, a size too large, or no room, and then the old one stays unless the size is 0 |
| HeapTable.LiveApart | libc/stdlib/malloc.c:11-85 | two live payloads never overlap |
| HeapTable.RegionChanged | libc/stdlib/malloc.c:11-85 | a step within one region leaves every other region in order and its payloads untouched |
| HeapRun.Run | libc/stdlib/malloc.c:11-85 | over every run up to a request that wraps, blocks tile each region, prev_size is the predecessor's size, the free list holds exactly the free blocks in address order, no two free blocks touch, what is live is exactly what the program holds, none 16 bytes or more longer than its block needs, every byte the program wrote, or realloc moved, reads back, and a request is refused exactly when there is no room |
| HeapRun.LayoutIsUnique | libc/stdlib/malloc.c:11-85 | the payloads in use and how much has been carved off a region determine every block of it, the free ones too |
| HeapRun.AllFreeIsOne | libc/stdlib/free.c:36-65 | once nothing is live, each used region is one free block as long as what was carved, and the whole free list |
| Calendar.FloorDivIsFloor | pcrutils/lib/pcrutils.c:76-84 | truncating division corrected for sign is the floor |
| Calendar.NumberNext | kernel/kernel/fs/isofs/isofs.c:55-70 | the year-by-year day count gives the day after a date the next number |
| Calendar.YearStartIs | kernel/kernel/fs/isofs/isofs.c:55-64 | the loop over years, before and after 1970, equals its closed form |
| Calendar.NumberOfDate | pcrutils/lib/pcrutils.c:86-100 | every day converts to a valid date whose day count is that day |
| Calendar.DateOfNumber | pcrutils/lib/pcrutils.c:86-100 | counting the days of a date and converting gives the date back |
| Calendar.DaysAdvance | pcrutils/lib/pcrutils.c:86-100 | day 0 is 1970-01-01, and day d + 1 is the Gregorian successor of day d |
| Calendar.CivilExactly | pcrutils/lib/pcrutils.c:86-100 | the year computed in int is right exactly for the days from March of year -2^31 to the end of year 2^31 - 1 |
| Calendar.UndefinedExactly | pcrutils/lib/pcrutils.c:86-100 | the sum in int leaves its range exactly in January and February of the years that are 2^31 modulo 2^32 |
| Calendar.YearsTooMany | pcrutils/lib/pcrutils.c:86-100 | 1 January 2^31 has no date, 1 March 2^31 is given the year -2^31 |
| Calendar.YearsTooFew | pcrutils/lib/pcrutils.c:86-100 | 29 February -2^31 has no date though its year is an int; the day after is right |
| Clock.Recombines | pcrutils/lib/pcrutils.c:117-132 | the fields put together again are the whole seconds, rounded down, before 1970 too, exactly when the year of the day fits |
| Clock.SplitsBack | pcrutils/lib/pcrutils.c:117-132 | and the reading of a date and a time of day splits into just these, exactly then |
| Clock.StepsFit | pcrutils/lib/pcrutils.c:117-132 | no step before the cast of the year leaves 64 bits, whatever the reading |
| Clock.UndefinedReached | pcrutils/lib/pcrutils.c:117-132 | 64-bit readings reach the days on which the conversion is undefined, after and before 1970 |
| Clock.SplitCentis | pcrutils/src/date.c:108-129 | the same fields, the weekday counted from a Thursday, and the day of the year that the month loop adds up, right exactly when the year fits; as far as the conversion of the day is defined |
| Clock.IsoTime | kernel/kernel/fs/isofs/isofs.c:39-78 | a stamp is accepted exactly when it is a date and a time of day, and is then counted into centiseconds with its zone |
| Clock.IsoRoundTrip | kernel/kernel/fs/isofs/isofs.c:39-78 | a stamp counted and split again, by the clock of its place, is the stamp |
| Glob.Bracket | pcrutils/lib/pcrutils.c:530-575 | a group matches exactly when it is closed, not empty and has the character; it is left just behind its bracket |
| Glob.GroupRead | pcrutils/lib/pcrutils.c:530-575 | a bracket with a body in it is a group that has what the body names, or with `!` or `^` in front exactly the rest |
| Glob.BodyNames | pcrutils/lib/pcrutils.c:540-565 | a body names its single characters and those from one end to the other of its ranges |
| Glob.GlobMatch | pcrutils/lib/pcrutils.c:577-639 | terminates; true only when the recursive meaning holds; agrees with it on every name without `[` before its last character |
| Glob.AcceptsMeans | pcrutils/lib/pcrutils.c:577-639 | whatever the one-star matcher accepts from a place is meant from there or after its star has taken more |
| Glob.AcceptsAll | pcrutils/lib/pcrutils.c:577-639 | on such names, whatever is meant from its place is accepted |
| Glob.MatcherIsSound | pcrutils/lib/pcrutils.c:577-639 | soundness for every pattern and every name |
| Glob.FallsShort | pcrutils/lib/pcrutils.c:577-639 | for every other name, a pattern that means it and is refused |
| Glob.ExactNames | pcrutils/lib/pcrutils.c:577-639 | the matcher is right about every pattern on exactly the names without `[` before their last character |
| Vmalloc.Coalesced | kernel/kernel/memman/vmalloc/vmalloc.c:49-78 | ranges that overlap or touch make one range of exactly their pages |
| Vmalloc.VirtualMemory.Insert | kernel/kernel/memman/vmalloc/vmalloc.c:49-78 | the free pages are the union with the new range, entries disjoint and not touching, except that the range is lost exactly when the table is full and no entry meets it |
| Vmalloc.VirtualMemory.Take | kernel/kernel/memman/vmalloc/vmalloc.c:82-101 | the first of the smallest ranges long enough gives up exactly what is returned; 0 exactly when none is long enough |
| Vmalloc.VirtualMemory.Return | kernel/kernel/memman/vmalloc/vmalloc.c:129-143 | the unwinding gives both parts of the range back: no page is unaccounted for unless the table was full |
| Vmalloc.VirtualMemory.Pages | kernel/kernel/memman/vmalloc/vmalloc.c:110-148 | what is handed out was not mapped and is the front of the first of the smallest free ranges long enough, else the pages at the frontier, and nothing else leaves the table; refused exactly when the size or the address space forbids it or frames run out, and then nothing stays mapped; pages are lost only to a full table |
| Vmalloc.VirtualMemory.FreePages | kernel/kernel/memman/vmalloc/vmalloc.c:150-172 | exactly those pages are no longer mapped |
| Vmalloc.Run | kernel/kernel/memman/vmalloc/vmalloc.c:35-172 | over every run each request is met exactly when it can be, and the ranges held never overlap each other or the free table |
| Calc.Parser.ParseNumber | calc/src/eval.c:24-45 | the digits' value, or overflow as soon as it leaves the range |
| Calc.NumberStep | calc/src/eval.c:24-45 | the test before each digit is exact |
| Calc.Parser.ParseFactor | calc/src/eval.c:47-107 | numbers, brackets and signs, with the nesting limit |
| Calc.Parser.ParseTerm | calc/src/eval.c:109-151 | products from the left; `/` and `%` by `Calc.DividesTowardsZero`, LONG_MIN by -1 counted as overflow |
| Calc.DividesTowardsZero | calc/src/eval.c:132-147 | quotient and remainder are the q and r with a == b * q + r, r smaller than b and of the sign of a, and no others |
| Calc.WrittenQuotient | calc/src/eval.c:109-151 | a text that is a product, `/` or `%`, and a factor has the value those two values divide into, or the error |
| Calc.DecimalIsRead | calc/src/eval.c:24-45 | a number written in decimal is read as that number up to 2^31 - 1, and is an overflow above |
| Calc.Parser.ParseExpr | calc/src/eval.c:153-181 | sums from the left with exact overflow |
| Calc.WrittenIsRead | calc/src/eval.c:183-206 | every text written from a tree nested below 64 evaluates to the tree's value, or its first overflow or zero-divide from left to right |
| Calc.ValueExactly | calc/src/eval.c:183-206 | a text has a value exactly when it is written from such a tree with that value |
| Calc.CalcEval | calc/src/eval.c:183-206 | the evaluator gives the value of the specification: a value exactly when the text is written from a tree that has it; what a written quotient or remainder comes to is said without either operator |
| PurLexer.LexingOnce | pur/src/parse.c:93-182 | a line can be cut into tokens in one way only, and not at all when a quote is open |
| PurLexer.Tokenize | pur/src/parse.c:93-182 | the tokens are that cut; QUOTE only for a quote nothing closes |
| PurLexer.EndsApart | pur/src/parse.c:184-190 | the place where one word is ended lies within no word |
| PurLexer.TerminateWords | pur/src/parse.c:184-190 | every word then reads as just its own characters |
| PurGrammar.ExprRead | pur/src/parse.c:196-378 | every expression is read as what it means if it is within the limits, whatever redundant brackets and semicolons it has, and refused for a limit if not |
| PurGrammar.ReadsExactly | pur/src/parse.c:9-378 | a stretch of tokens is read to its end exactly when it is the text of an expression within the limits |
| PurGrammar.RefusedWhy | pur/src/parse.c:9-378 | the code of a refusal is answered for by the tokens: more than 32 words in a run, more than 16 runs, more than 16 brackets and pipes, an empty bracket, or no expression there, and the last two only when none is |
| PurGrammar.ReadIsWireable | pur/src/parse.c:196-378 | what is read has its commands numbered from 0 in text order, sixteen at most, each with 1 to 32 words, and no empty group |
| PurGrammar.ReadWords | pur/src/parse.c:196-224 | the words of the commands read are words of the text |
| PurParse.AcceptedExactly | pur/src/parse.c:380-458 | exactly the chains of up to 64 expressions joined by operators are accepted, each in one way |
| PurParse.RefusedFor | pur/src/parse.c:380-458 | the code of a refused command names what is there: no token, a bar, an operator without an expression on one side, an `&` at the end, 64 operators or more, an expression refused so, or no chain at all |
| PurParse.MembersAdded | pur/src/ast.c:94-112 | a group set into the pools stands for exactly its members |
| PurParse.Parser.ParseLeaf | pur/src/parse.c:196-224 | a run of words becomes one command, within the caps |
| PurParse.Parser.ParseGroup | pur/src/parse.c:261-335 | a bracket becomes a group, or its one member itself |
| PurParse.Parser.ParseExpr | pur/src/parse.c:337-378 | the pools hold the tree the reading gives, or its error code, unless memory runs out |
| PurParse.Parser.ParseCommand | pur/src/parse.c:380-458 | a command is accepted or refused with the reading's code; the starts and operators noted are those of its chain |
| PurParse.Parser.ParseLoad | pur/src/parse.c:464-480 | loading an expression of an accepted command fails only for want of memory, and gives a tree that can be wired |
| PurTree.PlanForward | pur/src/exec.c:92-254 | every pipe of a statement goes from a command to one later in the text |
| PurTree.OutsExactly | pur/src/exec.c:92-114 | what a tree puts out comes from exactly its commands that stand on the left of no pipe in it |
| PurTree.PlanExactly | pur/src/exec.c:92-254 | exactly which pairs are joined: what the left side puts out with the commands right at the mouth of the right side, and for a pipe further in what its one side puts out with what the other does |
| PurTree.OwnReaches | pur/src/exec.c:151-207 | an output on the left of a statement's own pipe reaches every command on the right exactly when that is a command, a pipe of two, or a group of these |
| PurTree.InnerReaches | pur/src/exec.c:212-254 | an output on the left of any pipe further in reaches every command on its right exactly when there is no pipe there |
| PurTree.DownstreamExactly | pur/src/exec.c:92-254 | all pipes of a statement reach every command downstream exactly when its right side is as shallow as that and no pipe further in has a pipe on its right |
| PurTree.PassedOver | pur/src/exec.c:121-145 | a statement in which the output of an inner pipe does not reach a command downstream of it |
| PurTree.GroupPassedOver | pur/src/exec.c:151-207 | a statement whose own pipe passes over a group of two commands though there is no pipe on its right |
| PurTree.BothReached | pur/src/exec.c:151-207 | a statement whose own pipe reaches both commands of the pipe on its right |
| PurTree.LoneGroupUnwired | pur/src/exec.c:479-504 | a group that is a whole statement is not wired, which loses nothing exactly when it has no pipe |
| PurTree.LoneGroupLoses | pur/src/exec.c:479-504 | a group in which a pipe is lost so |
| PurTree.ChainPlan | pur/src/exec.c:479-504 | a plain pipeline joins each command to the next and no other |
| PurNet.AddAllExactly | pur/src/exec.c:61-90 | the pipes asked for are laid, each once, exactly when there are at most fourteen; else PIPES |
| PurNet.AddAllKeeps | pur/src/exec.c:61-90 | whatever comes of laying pipes, stream numbers and counts are right, and STREAMS is never reported |
| PurNet.InputsOneEach | pur/src/exec.c:80-87 | the input streams of a command are numbered 0 to count - 1, one edge each |
| PurNet.OutputsOneEach | pur/src/exec.c:80-87 | and its output streams |
| PurNet.CountsAre | pur/src/exec.c:80-87 | a command's counts are the numbers of different commands it is joined with each way |
| PurNet.NoWayBack | pur/src/exec.c:479-504 | no route along the pipes comes back to where it began |
| PurWire.Wiring.AddEdge | pur/src/exec.c:61-90 | one pipe laid, skipped or refused, in the order of the tests |
| PurWire.Wiring.OutputsCollect | pur/src/exec.c:92-114 | the output commands of a node, appended; STREAMS exactly when they do not fit |
| PurWire.Wiring.DeliverInternal | pur/src/exec.c:121-145 | every source to every output command of the node, in order, up to the first refusal |
| PurWire.Wiring.DeliverExternal | pur/src/exec.c:151-207 | every source to the bare commands at the sink, groups one level down passed over |
| PurWire.Wiring.WireInternals | pur/src/exec.c:212-254 | the pipes inside a node, inner ones first |
| PurWire.Wiring.WireGraph | pur/src/exec.c:479-504 | for every parsed statement the edges are exactly the planned ones, all forwards; PIPES exactly when there are more than fourteen |
| PurWire.Wiring.WireDefaults | pur/src/exec.c:420-438 | each missing stream, and no other, gets the next default opened |
| PurWire.Wiring.CreatePipes | pur/src/exec.c:440-457 | each pipe's two ends land in the two slots of its edge |
| PurWire.Wiring.Connect | pur/src/exec.c:420-504 | every slot a command is started with is filled exactly once, by a default or by the one pipe that belongs there |
| PurShell.DryRun | pur/src/run.c:14-60 | a dry run shows the expressions it comes to, each command under its first word with the stream counts of the plan, up to the first that asks for too many pipes; it fails exactly there or for want of memory |
| PurShell.ReachedAreRun | pur/src/parse.c:503-513 | the expressions come to are those `&&` and `||` let run when every one before succeeds |
| PurShell.SucceedsExactly | pur/src/run.c:14-60 | it succeeds exactly when no expression it comes to asks for too many pipes |
| PurShell.RunLine | pur/src/main.c:112-130 | from the characters of the line: an open quote, or the refusal its tokens get, or the dry run of the chain they are, unless memory runs out |

## Left out

- BlockBytes.BlockDev.BlockReadBytes: sums and block counts are unbounded here; the source adds `offset + len - 1` in 64 bits and counts blocks in 32, which ext2 with its 32-bit block numbers does not come near; a scratch buffer that cannot be had.
- BlockBytes.BlockDev.BlockWriteBytes: the same.
- Ext2Volume.Volume.IndirectEntry: a failing device, which drops the cached copy; the class as a whole leaves device failures out.
- Ext2Volume.Volume.AllocBlock: any clear block may be handed out; the order of groups and bits, the counts and the device's failures are those of `Ext2Bitmap.Allocator.AllocBlock`.
- Ext2Volume.Volume.MapBlockAlloc: device failures and `kmalloc` failures in tree operations, where the source gives up partway, are not modelled; running out of blocks is.
- Ext2Shrink.FreeBlocksFrom: the same failures; a device that fails in the middle of a truncation leaves it half done.
- Ext2File.File.Write: device, inode-write and `kmalloc` failures and their rollback, and timestamps. Shrinking is kept out of the runs, because it frees whole blocks only and leaves old bytes past the new size.
- Ext2File.Run: one open file at a time; the inode header is a field, not a block of the inode table.
- Ext2Bitmap.Run: the counts are right at the start and bitmap blocks are distinct; the 32-bit width of the counts is not reached; what comes after a bitmap block has been handed out.
- Ext2DirentEdit.DirentPlace: blocks of 65536 bytes, whose last record length would not fit 16 bits. Which blocks of a directory are looked at, and uniqueness of a name over the whole directory, which `ext2_dirent_add` does not establish.
- Ext2 inode allocation, directories as files, mounting, `readdir` and its cache, create, unlink, rename and link above the block level.
- RegistryRun.Run: the native tree only. Mounted file systems appear as a set of covered inodes that may not be moved or removed; `walk` stops where one begins.
- RegistryNamespace.Namespace.InodeUnref: the order in which a destroyed directory's entries are freed, open directory handles and counts on entries; reference counts do not saturate.
- RegistryNamespace.Namespace.WalkPath: `registry_mkfile_at`, which differs from making a directory only in the kind.
- Getcwd.Getcwd: the check of the user's pointer; the scratch buffer is kept as a list of names with their lengths, and the total of the lengths stands for its size.
- HeapTable.Heap.Malloc: what the kernel hands out is page-aligned, apart from all memory in use and below 2 GiB.
- HeapTable.Heap.Realloc: a pointer with a request that wraps, that is, what `free` does to a heap already spoilt; a null pointer with one is covered.
- HeapTable.Heap.Free: pointers into the middle of a payload, which the source does not detect.
- Clock.SplitCentis: printing of dates.
- Glob.GlobMatch: the terminating NUL is the end of the sequence; bytes above 127 are compared as unsigned.
- Vmalloc.VirtualMemory.Pages: how many frames there are is a parameter; which frames, and giving them back, are not modelled; addresses are page numbers.
- Calc.CalcEval: the null-pointer checks and the texts of the error messages.
- PurLexer.Tokenize: growing the pools is a request that may be refused; their sizes are not modelled.
- PurWire.Wiring.Connect: the checks of built-ins and of paths between wiring and opening, `procreate`, closing and waiting; which of the two default streams an opening is for.
- PurShell.RunLine: joining the arguments into the line, printing, and runs that execute commands.
- Devices and boot, the scheduler, pipes' blocking, page frames and page tables, the slab allocator, sorting, `printf`, the games, the other utilities.
