# Kot, verified in Dafny

This project models the parts of the Kot operating system that carry its state, and proves what
they keep. Each part is imperative Dafny in the shape of the original (objects with links and
flags, arrays, loops) that refines a specification on values; the properties are lemmas about that
specification, over every input, every reachable state or every run.

| files | part of Kot |
|---|---|
| `heap_layout.dfy`, `heap.dfy` | the kernel heap |
| `fat_table.dfy`, `fat_content.dfy`, `fat_volume.dfy`, `fat_files.dfy` | FAT32 cluster chains and files |
| `fat_directory.dfy`, `fat_cache.dfy`, `fat_names.dfy`, `fat_entries.dfy`, `fat_short.dfy`, `fat_search.dfy`, `fat_remove.dfy` | FAT32 directories: the entry cache, long and short names, search, creation and removal of entries |
| `scheduler_model.dfy`, `scheduler.dfy` | the ready queue and the context switch on any number of CPUs |
| `exec_stack.dfy` | the entry stack of a new process (section 3.4.1 of the System V ABI, AMD64 supplement) |
| `bitmap.dfy`, `page_runs.dfy`, `page_links.dfy`, `pmm.dfy` | the page bitmap and the physical page allocator |
| `mm_areas.dfy`, `mm_fixed.dfy`, `mm.dfy` | the regions of a user address space |
| `ip_checksum.dfy`, `ip_fragments.dfy` | internet checksums (RFC 1071) and IP reassembly (section 3.2 of RFC 791) |
| `printf_text.dfy`, `printf_format.dfy`, `printf_numbers.dfy`, `printf_directives.dfy`, `printf_meaning.dfy`, `printf_ends.dfy`, `printf.dfy` | formatted output (section 7.21.6 of ISO/IEC 9899:2011) |
| `ahci.dfy` | unaligned disk reads |
| `machine.dfy`, `distinctness.dfy` | bytes, word sizes and optional values; sequences without repetition, for the linked lists |

`dafny verify dfyconfig.toml` checks all files together.

## Where the code falls short of what one would expect

The code is modelled as it is. These results give the exact condition under which it does what its
callers count on, and an instance where it does not:

- `free_size` of the kernel heap counts headers as free once the heap has grown
  (`HeapLayout.FreeCountExact`, `HeapLayout.CountsHeaders`).
- A read that starts behind the end of a FAT file reports almost two to the 64 bytes
  (`FatFiles.ReportedIsExact`, `FatFiles.ReadBehindEnd`), and one that starts at two to the 32 or
  later returns bytes from the front (`FatFiles.NarrowedExactly`, `FatFiles.ReadsFirstByte`).
- The directory cache answers from the wrong cluster after a request behind the end of the directory
  (`FatCache.AfterNull`, `FatCache.EmptyAfterNull`, `FatCache.StaleAfterNull`).
- Some FAT names can be created but not found (`FatShort.CreatedIsFound`,
  `FatShort.LostNames`), also when the driver chooses between long and short ones itself
  (`FatShort.FileIsFound`, `FatShort.DirectoryIsFound`, `FatShort.LostCreations`), and what is stored
  for them can depend on memory behind the name (`FatShort.FromNameExactly`).
- Removing a directory entry moves more bytes than there are, and can make entries of uninitialised
  memory (`FatRemove.RemovalExact`, `FatRemove.GarbageAppears`).
- The zero-fill flag of a chain write counts from the wrong place when the write starts inside its
  last cluster (`FatVolume.FillExactly`, `FatVolume.FillWipes`).
- An end-of-chain write of no bytes at offset zero leaves the free cluster count one too high
  (`FatVolume.Context.WriteChain`, `FatVolume.CountsOneTooMany`).
- Removing the last of several threads from the ready queue leaves a wrong backward link
  (`Scheduler.Queue.Dequeue`, `Scheduler.DequeuesLast`); the kernel itself only takes the first.
- Unpausing a thread that is still on its CPU, or has exited, puts it in two places
  (`SchedulerModel.UnpauseExact`, `SchedulerModel.UnpausedTooEarly`).
- A thread that is told to exit while it is paused is never handed over for release
  (`SchedulerModel.HandedOverExactly`, `SchedulerModel.ExitsWhilePaused`).
- The page allocator follows links to pages that are in use, and writes into them
  (`PageLinks.FreeLeavesAlone`, `PageLinks.TakeLeavesAlone`, `PageLinks.CleanAfterTake`,
  `PhysicalPages.OverwritesPageInUse`).
- `used_pages` counts down from zero while pages are released at start-up, so it is the negative of
  `available_pages` in 64 bits rather than the number of pages in use
  (`PhysicalPages.Pages.UsedIsNegative`, `PhysicalPages.FirstRelease`).
- A request for a region of no bytes takes a whole free region (`Areas.TakeFront`,
  `Areas.TakesAllForNothing`).
- The size of a region wraps around when it is rounded up (`MemoryRegions.NeedIsPages`,
  `MemoryRegions.WrapsToNothing`).
- A fixed request that starts in a region of one status and ends inside one of the other changes the
  status of addresses behind it (`FixedRequests.FixedExact`, `FixedRequests.FreesPageInUse`).
- The internet checksum loses the carries beyond 32 bits (`IpChecksum.ChecksumExact`,
  `IpChecksum.SumFits`, `IpChecksum.CarryLost`).
- A datagram with a fragment that comes twice is not recognised as complete, or is when it is not
  (`IpFragments.CompleteBySize`, `IpFragments.CountedTwice`).
- `printf` loses the minus sign behind 32 zeros, does not fill zero-filled fields beyond 32, and cuts
  binary numbers to 32 digits (`PrintfNumbers.NumberExact`, `PrintfText.SignKept`,
  `PrintfText.FieldFilled`, `PrintfText.NumberReads`, `PrintfText.BufferTooShort`). It runs over the
  end of a format that breaks off inside a directive (`PrintfEnds.RunsOverExactly`,
  `PrintfEnds.TerminatedUnlessBreaksOff`, `PrintfEnds.Instances`).

## Model

| member | source | states |
|---|---|---|
| HeapLayout.InitInv | sources/core/kernel/source/global/heap.c:170-192 | the heap that `heap_init` sets up has a well-formed layout and right counters |
| HeapLayout.TwoExpansions | sources/core/kernel/source/global/heap.c:194-229 | after at most two expansions some segment fits, also when the first expansion leaves one that is too large to match and too small to split |
| HeapLayout.PreparedKeepsInv | sources/core/kernel/source/global/heap.c:132-168 | expanding as often as a request needs keeps layout, counters and every block in use |
| HeapLayout.TakeKeepsInv | sources/core/kernel/source/global/heap.c:205-224 | handing out a segment, split or whole, keeps order, alignment, the rule that no two neighbours are free, and the counters |
| HeapLayout.GrowKeepsInv | sources/core/kernel/source/global/heap.c:132-168 | so does an expansion, whether it extends the lowest segment or adds one; the heap grows down by exactly the bytes mapped |
| HeapLayout.ReleaseKeepsInv | sources/core/kernel/source/global/heap.c:231-267 | so does freeing a segment and joining it with its free neighbours |
| HeapLayout.TakeIsFresh | sources/core/kernel/source/global/heap.c:194-229 | a block handed out overlaps no block in use, headers included |
| HeapLayout.MallocStep | sources/core/kernel/source/global/heap.c:194-229 | `malloc` of a nonzero size adds one live block, 16-aligned, as long as the request rounded up to 16, clear of every other |
| HeapLayout.FreeStep | sources/core/kernel/source/global/heap.c:231-267 | `free` removes exactly the block it is given, NULL removes nothing |
| HeapLayout.RunKeepsInv | sources/core/kernel/source/global/heap.c:81-267 | over every run of `malloc` and `free` the invariant holds, and a block not freed stays where it is with its length |
| HeapLayout.InvConsequences | sources/core/kernel/source/global/heap.c:166-267 | in every such state two live blocks are disjoint and no counter is negative |
| HeapLayout.MallocPlaces | sources/core/kernel/source/global/heap.c:203-224 | if a free segment has exactly the rounded length, or is longer by more than a header, `malloc` expands nothing, the block is the upper end of the highest such segment, and what is left of it stays free |
| HeapLayout.MallocGrows | sources/core/kernel/source/global/heap.c:203-229 | if there is none the heap grows by one expansion or two and the block lies in the new bytes or the lowest segment |
| HeapLayout.GrowsExactly | sources/core/kernel/source/global/heap.c:203-229 | so the heap grows exactly if there is none |
| HeapLayout.FreeThenMalloc | sources/core/kernel/source/global/heap.c:194-267 | freeing a block between two blocks in use and asking for its size again, when no higher segment fits, gives the same block and the very same heap |
| HeapLayout.FreeCountExact | sources/core/kernel/source/global/heap.c:132-267 | over every run `free_size` counts as much beyond the free segments as at the start exactly if the heap has not grown, and more otherwise |
| HeapLayout.CountsHeaders | sources/core/kernel/source/global/heap.c:132-192 | an instance: 48 bytes at the start, 144 after one expansion |
| KernelHeap.Allocator.constructor | sources/core/kernel/source/global/heap.c:170-192 | the linked headers written by `heap_init` represent the initial layout |
| KernelHeap.Allocator.MergeLastToThis | sources/core/kernel/source/global/heap.c:91-100 | the header list after the merge is the list with the upper neighbour absorbed; bytes of live blocks are kept |
| KernelHeap.Allocator.MergeThisToNext | sources/core/kernel/source/global/heap.c:81-89 | the lower neighbour absorbs the segment; bytes of live blocks are kept |
| KernelHeap.Allocator.MergeLastAndThisToNext | sources/core/kernel/source/global/heap.c:102-106 | both merges together absorb two segments into the lowest |
| KernelHeap.Allocator.SplitSegment | sources/core/kernel/source/global/heap.c:108-130 | NULL exactly when the segment is not longer than request plus header; otherwise the linked list is the one with the upper end carved off |
| KernelHeap.Allocator.ExpandHeap | sources/core/kernel/source/global/heap.c:132-168 | refines the expansion of the layout; no byte of a live block changes |
| KernelHeap.Allocator.FindSegment | sources/core/kernel/source/global/heap.c:203-224 | the search loop finds the first segment from the top that matches or can be split (what that means is `HeapLayout.MallocPlaces`), NULL exactly if there is none |
| KernelHeap.Allocator.TakeSegment | sources/core/kernel/source/global/heap.c:206-221 | refines the hand-out of a segment and returns the address of the block |
| KernelHeap.Allocator.Malloc | sources/core/kernel/source/global/heap.c:194-229 | refines the `malloc` step, terminates, returns NULL exactly for size zero, and changes no byte of a live block although headers lie in the same memory |
| KernelHeap.Allocator.Free | sources/core/kernel/source/global/heap.c:231-267 | refines the `free` step and changes no byte of a block still in use |
| KernelHeap.Allocator.Realloc | sources/core/kernel/source/global/heap.c:276-290 | the new block starts with the bytes of the old one up to the shorter length, the old one is freed, all other blocks keep their bytes; size zero returns NULL and frees nothing |
| KernelHeap.RetryLemma | sources/core/kernel/source/global/heap.c:226-228 | expanding once and starting `malloc` over is the same allocation with one expansion less to go |
| FatTable.SetLinkEffect | sources/core/modules/fat32/source/core.c:118-129 | storing a link changes the low 28 bits of one entry and nothing else |
| FatTable.ChainDistinct | sources/core/modules/fat32/source/core.c:118-169 | a chain never returns to a cluster |
| FatTable.ChainUnique | sources/core/modules/fat32/source/core.c:118-169 | the table determines a chain from its first cluster |
| FatTable.CountSetLink | sources/core/modules/fat32/source/core.c:122-157 | how the number of free entries changes with one link |
| FatTable.FreeChain | sources/core/modules/fat32/source/core.c:159-169 | on a chain the freeing walk frees exactly the clusters of that chain, each once |
| FatTable.EditKeepsVolume | sources/core/modules/fat32/source/core.c:122-282 | creating, extending, cutting or removing one chain keeps all chains of the volume disjoint and every other chain cluster for cluster |
| FatTable.VolumeIsForest | sources/core/modules/fat32/source/core.c:122-282 | no cluster has two predecessors and no chain reaches a free cluster |
| FatTable.RunKeepsVolume | sources/core/modules/fat32/source/core.c:122-282 | the same over every run of operations; a file no operation concerns keeps its clusters |
| FatVolume.Context.SetNext | sources/core/modules/fat32/source/core.c:122-129 | cached entry and both disk copies are updated together; the top four bits of every entry are kept |
| FatVolume.Context.AllocateCluster | sources/core/modules/fat32/source/core.c:133-148 | the lowest free cluster from the hint on becomes a chain of one; failure means there is none from the hint on; the free count stays exact |
| FatVolume.Context.FreeCluster | sources/core/modules/fat32/source/core.c:150-157 | one entry becomes free; the count is one too high exactly if it was free before |
| FatVolume.Context.FreeAllFollowing | sources/core/modules/fat32/source/core.c:159-169 | terminates on every table whose links are in range, cyclic ones too, and leaves what the walk specifies |
| FatVolume.Context.FreeFile | sources/core/modules/fat32/source/core.c:159-169 | on a well-formed chain exactly that chain is freed and the free count stays exact |
| FatVolume.Context.ReadChain | sources/core/modules/fat32/source/core.c:198-227 | returns exactly the bytes of the chain from the offset on, cut at the end of the chain |
| FatVolume.Context.Extend | sources/core/modules/fat32/source/core.c:229-256 | a free cluster is linked behind the end of the chain and no other entry changes |
| FatVolume.Context.WriteChain | sources/core/modules/fat32/source/core.c:229-283 | exactly the written bytes change, and with the zero-fill flag the end of the last cluster; the chain grows only as needed, and with the end-of-chain flag is left with the clusters the data needs; a failure means that no cluster is free from the hint on and the chain is too short, and then all bytes that fit are written; free count, mirrors and reserved bits are kept, but for a write of no bytes at offset zero with the end-of-chain flag, which leaves the count one too high |
| FatVolume.FillExactly | sources/core/modules/fat32/source/core.c:264-268 | the zero fill starts where the write ends, and keeps everything before that, exactly if the write starts no later than the cluster it ends in; otherwise it wipes bytes just written |
| FatVolume.FillWipes | sources/core/modules/fat32/source/core.c:264-268 | an instance: an empty write in the middle of a cluster zeroes all of it |
| FatVolume.CountsOneTooMany | sources/core/modules/fat32/source/core.c:270-279 | an instance of the wrong free count: a write of nothing at offset zero with the end-of-chain flag, on any chain |
| FatVolume.Context.Truncate | sources/core/modules/fat32/source/core.c:268-279 | the clusters behind the cut become free, the chain ends at the cut |
| FatContent.WriteThenRead | sources/core/modules/fat32/source/core.c:198-282 | a range just written reads back, bytes before and after it are kept |
| FatFiles.Volume.Clear | sources/core/modules/fat32/source/core.c:831-835 | freeing a file removes its chain from the volume and keeps the others and all data |
| FatFiles.Volume.Write | sources/core/modules/fat32/source/core.c:1060-1092 | all other files keep their chains; the bytes land at the 32-bit offset; the chain keeps its clusters and grows no further than needed; a failure means that the chain is too short and no cluster is free from the hint on, and then all bytes that fit are written, success that all are; the size recorded, cut to 32 bits, is stated for every outcome; writing nothing changes nothing |
| FatFiles.Volume.Read | sources/core/modules/fat32/source/core.c:1040-1058 | returns the bytes of the file's chain from the start cut to 32 bits on, and the count the driver computes |
| FatFiles.NarrowedExactly | sources/core/modules/fat32/source/core.c:1040-1058 | those are the bytes at the 64-bit start exactly if it is below two to the 32, nothing is asked for, or the cut start is behind the end as well |
| FatFiles.ReadsFirstByte | sources/core/modules/fat32/source/core.c:1040-1058 | an instance: a read at two to the 32 returns the first byte |
| FatFiles.ReportedIsExact | sources/core/modules/fat32/source/core.c:1040-1058 | for every 64-bit start that count is the number of bytes inside the file exactly when the read does not start behind its end and the sum does not wrap around into the file |
| FatFiles.ReadBehindEnd | sources/core/modules/fat32/source/core.c:1051-1055 | an instance where the count is almost two to the 64 |
| FatFiles.RoundTrip | sources/core/modules/fat32/source/core.c:1040-1092 | a range written to a file reads back, and what lies before it is kept |
| FatFiles.OtherFilesKeepContent | sources/core/modules/fat32/source/core.c:1060-1092 | a write to one file changes no byte of another |
| FatDirectory.LookupRefines | sources/core/modules/fat32/source/core.c:462-494 | a coherent cache answers like a walk from the base cluster, on a hit, forward or backward, and stays coherent unless the answer is NULL |
| FatDirectory.AnswersRefine | sources/core/modules/fat32/source/core.c:462-494 | for any sequence of entry numbers every answer up to the first NULL is the entry an uncached read finds |
| FatCache.EntryAnswers | sources/core/modules/fat32/source/core.c:462-494 | which entry a request is answered with, and what the cache holds afterwards, for every relation of the cluster held and the number the cache believes it has |
| FatCache.RepliesExact | sources/core/modules/fat32/source/core.c:462-494 | so every answer of every sequence of requests is known, also behind any number of NULLs |
| FatCache.AfterNull | sources/core/modules/fat32/source/core.c:462-494 | after a NULL on a cache that holds the cluster it believes in, the next request is answered right exactly in these cases: the first cluster is held; the second is held and the request is not for the first; a later one is held and the request is for a cluster in front of the one before it. Any other request gets the entry one cluster further |
| FatCache.EmptyAfterNull | sources/core/modules/fat32/source/core.c:462-494 | after a NULL on an empty cache every next request is answered right |
| FatCache.StaleAfterNull | sources/core/modules/fat32/source/core.c:462-494 | an instance: a directory of two clusters read to its end and then from its start is answered from the second cluster |
| FatDirectory.Reader.Follow | sources/core/modules/fat32/source/core.c:473-483 | the loop over links refines the walk along the chain |
| FatDirectory.Reader.Fetch | sources/core/modules/fat32/source/core.c:462-494 | the cache variables and the answer are those of the specified lookup |
| FatDirectory.Reader.ReadEntry | sources/core/modules/fat32/source/core.c:462-494 | the entry at that number, or NULL exactly behind the end of the chain |
| FatDirectory.Reader.DirSize | sources/core/modules/fat32/source/core.c:496-512 | the end of the last entry in use |
| FatNames.ParsedChar | sources/core/modules/fat32/source/core.c:300-354 | a character stored by `fat_set_name_to_lfn` is read back by `fat_parse_lfn`, and so is the terminator |
| FatNames.FirstEntry | sources/core/modules/fat32/source/core.c:753-761 | the first entry of a name announces how many follow and is never taken for a deleted one |
| FatNames.EntriesLinked | sources/core/modules/fat32/source/core.c:753-761 | every entry of a long name is marked as one, carries the checksum, and counts down to the short entry |
| FatNames.CharactersStored | sources/core/modules/fat32/source/core.c:315-354 | which bytes of which entry hold which character of a long name: as itself exactly if it is ASCII, with 0xFF in front of it otherwise; then a zero, then 0xFFFF |
| FatNames.NameRoundTrip | sources/core/modules/fat32/source/core.c:585-600 | the entries laid out for any name of 1 to 247 bytes, wherever they lie in the directory, are put together to that name, also at multiples of 13 and across clusters |
| FatNames.FirstIsFound | sources/core/modules/fat32/source/core.c:574-618 | the search returns the short entry of the first item that shows the name, whatever the name buffer held before and whatever follows |
| FatNames.MissingIffNotShown | sources/core/modules/fat32/source/core.c:574-618 | in a directory of proper items the search fails exactly when no item shows the name |
| FatNames.AddedIsFound | sources/core/modules/fat32/source/core.c:574-618 | a name added behind items of other names is found at its short entry |
| FatShort.MakeShort | sources/core/modules/fat32/source/core.c:409-456 | the copy loops build the short name, cut with a tilde or filled with blanks, with letters raised, from the name and, for a file without a dot, from the memory behind it |
| FatShort.ShortReads | sources/core/modules/fat32/source/core.c:387-456 | reading that entry gives the name back exactly if it has no lower-case letter and fits: up to eight characters without blanks and, for a file, a dot and up to three more |
| FatShort.RaisedReads | sources/core/modules/fat32/source/core.c:387-456 | a name that fits but for small letters is read with capital ones |
| FatShort.CutReads | sources/core/modules/fat32/source/core.c:387-456 | a file name with more than eight characters in front of its dot is read as six of them, a tilde, a one, and the rest from the dot on |
| FatShort.DirectoryStored | sources/core/modules/fat32/source/core.c:409-424 | the short name of a directory takes all eleven bytes, cut to nine and a tilde and a one if it is longer |
| FatShort.ShortKeeps | sources/core/modules/fat32/source/core.c:296-298 | the archive attribute is set, all other attributes and bytes of the entry are kept |
| FatShort.FromNameExactly | sources/core/modules/fat32/source/core.c:425-440 | the entry depends on nothing but the name exactly if it is that of a directory or there is a dot and at least two characters behind it; otherwise memory behind the name is copied into it |
| FatShort.CreatedIsFound | sources/core/modules/fat32/source/core.c:574-769 | a name written behind items of other names is found again exactly if it does not start with byte 0x05 or 0xE5 and has long-name entries or fits a short one |
| FatShort.LostNames | sources/core/modules/fat32/source/core.c:409-456 | instances: the name that is byte 0xE5, and a file without a dot stored as a short name |
| FatShort.NeedsLong | sources/core/modules/fat32/source/core.c:366-385 | long-name entries are asked for exactly if the name is longer than nine characters (eleven, for a directory) or has a small letter |
| FatShort.FileIsFound | sources/core/modules/fat32/source/core.c:951-970 | so a file that is created is found again exactly if its first byte does not mark an unused entry and its name is longer than nine characters (eight, behind a slash), or has a small letter, or has a dot with at most three characters behind it and no blank before it |
| FatShort.DirectoryIsFound | sources/core/modules/fat32/source/core.c:1101-1129 | and a directory exactly if the first byte does not mark an unused entry and its name is longer than nine characters (eight, behind a slash), or has a small letter, or has at most eight characters and no blank |
| FatShort.LostCreations | sources/core/modules/fat32/source/core.c:951-1129 | an instance for each: the file "A" and the directory "AAAAAAAAA" |
| FatShort.LongChecksum | sources/core/modules/fat32/source/core.c:356-364 | the checksum of the short name, byte by byte |
| FatShort.ChecksumDetects | sources/core/modules/fat32/source/core.c:356-364 | names that differ in one byte have different checksums |
| FatEntries.MakeLong | sources/core/modules/fat32/source/core.c:315-354 | the three copy loops and the fill loop build the long-name entry, whatever bytes were on the stack or in the entry before |
| FatEntries.ReadLong | sources/core/modules/fat32/source/core.c:300-313 | the three read loops give the thirteen characters of a long-name entry |
| FatEntries.ReadShort | sources/core/modules/fat32/source/core.c:387-407 | the name up to the first blank, and for files a dot and the extension, with a zero byte behind it in the buffer |
| FatSearch.Collect | sources/core/modules/fat32/source/core.c:587-600 | the inner loop of the search, over the cluster cache, gives the assembled name; it fails exactly when the directory ends first |
| FatSearch.Examine | sources/core/modules/fat32/source/core.c:585-615 | one round of the search loop |
| FatSearch.FindEntry | sources/core/modules/fat32/source/core.c:574-618 | the search through the cluster cache returns what the search over the list of entries returns |
| FatSearch.Layout | sources/core/modules/fat32/source/core.c:745-761 | the entry buffer is the long-name entries, last part first, if there are any, and the short entry |
| FatSearch.StreamAppended | sources/core/modules/fat32/source/core.c:763-768 | entries written behind the first ones of a directory appear there in order, the earlier ones unchanged, even if the chain grows or is cut |
| FatSearch.AddEntry | sources/core/modules/fat32/source/core.c:712-769 | with or without long-name entries: refused exactly when an item already shows the name, and then nothing changes; otherwise the directory is the old items and the new entries, with no entry in use behind them unless the chain grew, and has just the clusters they need; the one exception is a chain that is too short when no cluster is free, which takes the bytes it has room for; nothing outside the chain changes |
| FatSearch.AddedThenFound | sources/core/modules/fat32/source/core.c:574-769 | after that the new name is found, every name found before is found where it was, and the directory lists one item more |
| FatRemove.Remove | sources/core/modules/fat32/source/core.c:811-824 | the buffer that is read, partly uninitialised, moved and zero-filled gives exactly the specified bytes of the directory; nothing outside its chain changes; a failure means that the chain is too short and no cluster is free |
| FatRemove.RemovalExact | sources/core/modules/fat32/source/core.c:811-824 | whatever the buffer held, the directory keeps exactly the entries that are not removed, and no other in use, exactly if those left and as many again as were in front fit one cluster, or the directory has room behind its entries for the ones in front |
| FatRemove.GarbageAppears | sources/core/modules/fat32/source/core.c:811-824 | an instance: two full clusters, and removing the second entry makes an entry of uninitialised bytes |
| FatRemove.RemovedThenListed | sources/core/modules/fat32/source/core.c:574-824 | where the removal is right the directory lists the other items, and a name is found exactly if one of them shows it |
| Scheduler.Queue.Enqueue | sources/core/kernel/source/global/scheduler.c:52-65 | the linked ring holds the old sequence and the new thread |
| Scheduler.Queue.Dequeue | sources/core/kernel/source/global/scheduler.c:67-95 | the ring without that thread; well formed exactly if the thread was not the last of several, in which case only the first thread's backward link is wrong |
| Scheduler.DequeuesLast | sources/core/kernel/source/global/scheduler.c:67-95 | an instance: the second of two threads is taken out, and the first one's backward link points at itself |
| Scheduler.Queue.Get | sources/core/kernel/source/global/scheduler.c:97-104 | takes the first thread, NULL exactly when the queue is empty |
| Scheduler.Dispatcher.constructor | sources/core/kernel/source/global/scheduler.c:237-251 | one idle thread per CPU that can never be queued |
| Scheduler.Dispatcher.Launch | sources/core/kernel/source/global/scheduler.c:401-408 | refines the launch step |
| Scheduler.Dispatcher.Declare | sources/core/kernel/source/global/scheduler.c:410-433 | refines the declaration of a pause or exit by the running thread; a pause is refused exactly to a thread already pausing |
| Scheduler.Dispatcher.Unpause | sources/core/kernel/source/global/scheduler.c:435-449 | refines the unpause step; refused exactly to a thread that does not pause, also one that is running |
| Scheduler.Dispatcher.ExitPaused | sources/core/kernel/source/global/scheduler.c:479-504 | refines the exit of a thread that has paused and left its CPU: it is flagged and nothing else happens to it |
| Scheduler.Dispatcher.Depart | sources/core/kernel/source/global/scheduler.c:262-281 | what the first half of the handler does to the queue, the freed list and the fields of every thread |
| Scheduler.Dispatcher.Seat | sources/core/kernel/source/global/scheduler.c:283-309 | what the second half does |
| Scheduler.Dispatcher.Handle | sources/core/kernel/source/global/scheduler.c:253-312 | the handler refines the switch step: flags, links, queue heads, current threads and pending frees agree with the new state on all CPUs |
| SchedulerModel.BootInv | sources/core/kernel/source/global/scheduler.c:237-251 | the initial state satisfies the invariant on any number of CPUs |
| SchedulerModel.SwitchIs | sources/core/kernel/source/global/scheduler.c:253-312 | what a switch does to queue, CPUs, debts and the freed list, in one formula each |
| SchedulerModel.SwitchMoves | sources/core/kernel/source/global/scheduler.c:253-312 | and where every thread is afterwards |
| SchedulerModel.RunKeepsInv | sources/core/kernel/source/global/scheduler.c:52-312 | the invariant holds in every state of every interleaving of launch, declare, switch, unpause and exit steps |
| SchedulerModel.OnePlace | sources/core/kernel/source/global/scheduler.c:52-312 | there, every thread is in exactly one of ready queue, one CPU, paused, exited or stranded, and once |
| SchedulerModel.StepIsFifo | sources/core/kernel/source/global/scheduler.c:52-104 | one step appends what arrives and takes what starts from the front |
| SchedulerModel.RunIsFifo | sources/core/kernel/source/global/scheduler.c:52-104 | over every run the threads started and those left in the queue are, in order, the ones queued at first and those that came |
| SchedulerModel.StartedInTurn | sources/core/kernel/source/global/scheduler.c:52-104 | a thread with k threads ahead is the one started on the (k+1)-st take |
| SchedulerModel.ExitIsOwed | sources/core/kernel/source/global/scheduler.c:271-305 | the switch away from an exiting thread makes its CPU owe it |
| SchedulerModel.StepFrees | sources/core/kernel/source/global/scheduler.c:262-305 | freed threads are never freed again; a debt is paid by the next switch on that CPU and by nothing else |
| SchedulerModel.FreedAtNextSwitch | sources/core/kernel/source/global/scheduler.c:262-305 | over every run an exited thread is handed over exactly when its CPU has switched since |
| SchedulerModel.HandedOverExactly | sources/core/kernel/source/global/scheduler.c:262-504 | over every run a thread told to exit is handed over exactly when its CPU has switched twice since, or once if it had left the CPU; a thread that was paused then never is |
| SchedulerModel.ExitsWhilePaused | sources/core/kernel/source/global/scheduler.c:479-504 | an instance: a run that leaves a thread stranded |
| SchedulerModel.UnpauseExact | sources/core/kernel/source/global/scheduler.c:435-449 | unpausing a thread whose pause flag is set leaves it in the queue and not also on a CPU or exited exactly if it has paused and left its CPU |
| SchedulerModel.UnpausedTooEarly | sources/core/kernel/source/global/scheduler.c:435-449 | an instance: a run after which unpausing a thread puts it in the queue and on the CPU |
| ExecStack.LittleRoundTrip | sources/core/kernel/source/global/elf_loader.c:239-271 | words stored are words loaded |
| ExecStack.Image.PushString | sources/core/kernel/source/global/elf_loader.c:211-217 | string and terminator lie below the old stack pointer; nothing above changes |
| ExecStack.Image.PushStrings | sources/core/kernel/source/global/elf_loader.c:211-225 | every pointer leads to its string, and no later string overwrites an earlier one |
| ExecStack.Image.PushVector | sources/core/kernel/source/global/elf_loader.c:234-252 | the auxiliary vector, as words |
| ExecStack.Image.PushTable | sources/core/kernel/source/global/elf_loader.c:234-271 | the words from the stack pointer up: count, argument pointers, zero, environment pointers reversed, zero, auxiliary vector |
| ExecStack.BottomAligned | sources/core/kernel/source/global/elf_loader.c:227-232 | for every number of arguments and variables the final stack pointer is a multiple of 16 |
| ExecStack.ImageReads | sources/core/kernel/source/global/elf_loader.c:200-274 | a reader of the ABI layout finds count, argument strings in order, environment strings in reverse order, and the auxiliary vector |
| ExecStack.Image.Load | sources/core/kernel/source/global/elf_loader.c:200-274 | the image written through the kernel's alias of the stack reads back as these arguments; the stack pointer is aligned; nothing above the old one changes |
| Bitmaps.SetOne | sources/core/kernel/source/lib/bitmap.h:8-10 | setting a bit of a byte sets that bit and no other |
| Bitmaps.ClearOne | sources/core/kernel/source/lib/bitmap.h:8-10 | clearing a bit of a byte clears that bit and no other |
| Bitmaps.Bitmap.Get | sources/core/kernel/source/lib/bitmap.h:19-21 | reads the boolean the bytes stand for |
| Bitmaps.Bitmap.Set | sources/core/kernel/source/lib/bitmap.h:23-29 | updates exactly that boolean |
| Bitmaps.Bitmap.SetAll | sources/core/kernel/source/lib/bitmap.h:31-35 | updates exactly that range |
| Bitmaps.Bitmap.Exchange | sources/core/kernel/source/lib/bitmap.h:37-45 | returns the old boolean and stores the new one |
| PageRuns.RunsAfterTake | sources/core/kernel/source/global/pmm.c:45-90 | using the first page of a maximal free run shortens or removes that run and touches no other |
| PageRuns.RunsAfterFree | sources/core/kernel/source/global/pmm.c:92-206 | freeing pages joins them with the runs on both sides and touches no other |
| PageRuns.TagsAfterTake | sources/core/kernel/source/global/pmm.c:45-90 | the tags agree with the bits after a page has been taken |
| PageRuns.TagsAfterFree | sources/core/kernel/source/global/pmm.c:92-206 | the tags agree with the bits after pages have been freed |
| PageRuns.TagsAfterWrite | sources/core/kernel/source/global/pmm.c:8-22 | whatever the owner writes into a page in use, the tags of free runs stay right |
| PageLinks.FreeLeavesAlone | sources/core/kernel/source/global/pmm.c:92-206 | releasing pages keeps what the owner of another page has in it, whatever that is, exactly if no link that is followed leads to the page |
| PageLinks.TakeLeavesAlone | sources/core/kernel/source/global/pmm.c:45-90 | the same for taking a page |
| PageLinks.CleanAfterFree | sources/core/kernel/source/global/pmm.c:92-206 | if all links of the list lead to free pages they do so after a release |
| PageLinks.CleanAfterTake | sources/core/kernel/source/global/pmm.c:45-90 | and after taking a page exactly if no link of another run leads to that page |
| PageLinks.LastAfterFree | sources/core/kernel/source/global/pmm.c:92-206 | after a release the list still ends with the run it ended with, wherever that starts now, unless the pages have no free neighbour and come behind it, or it has been joined with the run below |
| PageLinks.LastAfterTake | sources/core/kernel/source/global/pmm.c:45-90 | and after taking a page, if anything is left of it |
| PhysicalPages.Pages.constructor | sources/core/kernel/source/boot/limine/pmm.c:68-88 | with every bit set the empty set of runs is tagged |
| PhysicalPages.Pages.RemoveRun | sources/core/kernel/source/global/pmm.c:45-90 | tags, links and the entry of the list are those of the specification, which tags the rest of the run and outside it changes only links |
| PhysicalPages.Pages.AddRun | sources/core/kernel/source/global/pmm.c:92-206 | so are they in all four cases of joining runs |
| PhysicalPages.Pages.Free | sources/core/kernel/source/global/pmm.c:208-222 | exactly these bits are cleared, the count of free pages is exact, every maximal run has tags with its exact bounds and length, no free page lies below the search bound, and the links are those specified |
| PhysicalPages.Pages.UsedIsNegative | sources/core/kernel/source/global/pmm.c:208-281 | in every state `used_pages` is the negative of `available_pages` in 64 bits, and never the number of pages that are not available |
| PhysicalPages.FirstRelease | sources/core/kernel/source/global/pmm.c:208-222 | an instance: the first page released at start-up makes it the largest 64-bit number |
| PhysicalPages.OverwritesPageInUse | sources/core/kernel/source/global/pmm.c:45-206 | an instance: after two releases and one allocation a third release stores a link into the allocated page and makes it the entry of the free list |
| PhysicalPages.Pages.Allocate | sources/core/kernel/source/global/pmm.c:263-281 | returns the lowest free page, which starts its run, and takes exactly that page; gives up exactly when no page is free |
| PhysicalPages.Pages.Scribble | sources/core/kernel/source/global/pmm.c:8-22 | a write by the owner of a page keeps everything |
| Areas.SplitUsed | sources/core/kernel/source/global/mm.c:30-58 | a split changes the status of no address |
| Areas.MergeUsed | sources/core/kernel/source/global/mm.c:60-70 | a merge gives the neighbour's addresses the status of the region that grows |
| Areas.FinishUsed | sources/core/kernel/source/global/mm.c:217-233 | the end of a request puts exactly the chosen area into use |
| Areas.FinishAlternates | sources/core/kernel/source/global/mm.c:217-233 | and no two neighbours have the same status if that held elsewhere |
| Areas.FirstFitIsLowest | sources/core/kernel/source/global/mm.c:196-211 | the first free region that is large enough starts at the lowest address where the request fits, and there is none exactly if there is no such address |
| Areas.TakeFront | sources/core/kernel/source/global/mm.c:196-233 | a request comes from the front of that region; a request of nothing takes all of it |
| Areas.TakesAllForNothing | sources/core/kernel/source/global/mm.c:196-233 | an instance: a request of zero bytes takes 256 pages |
| FixedRequests.FixedTiles | sources/core/kernel/source/global/mm.c:169-194 | every fixed request keeps the tiling, also one across several regions |
| FixedRequests.FixedUsed | sources/core/kernel/source/global/mm.c:169-233 | the status of every address after a fixed request, across any number of regions |
| FixedRequests.FixedExact | sources/core/kernel/source/global/mm.c:169-233 | exactly the requested addresses inside the range come into use exactly if the request ends with a region or in one of the status of the region it starts in |
| FixedRequests.FreesPageInUse | sources/core/kernel/source/global/mm.c:169-233 | an instance: a request across a free and a used region makes a page in use free |
| FixedRequests.FixedAlternates | sources/core/kernel/source/global/mm.c:169-233 | a fixed request that is met exactly keeps regions maximal |
| MemoryRegions.Handler.constructor | sources/core/kernel/source/global/mm.c:77-99 | one free region tiles the range |
| MemoryRegions.Handler.RemoveRegion | sources/core/kernel/source/global/mm.c:10-28 | the linked list without that region; heads and count stay right |
| MemoryRegions.Handler.SplitRegion | sources/core/kernel/source/global/mm.c:30-58 | the list with the region cut, or unchanged exactly if the size is zero or not smaller than the region |
| MemoryRegions.Handler.MergeRegion | sources/core/kernel/source/global/mm.c:60-70 | the list with the next region taken in; refused exactly for the last region |
| MemoryRegions.Handler.FinishRegion | sources/core/kernel/source/global/mm.c:217-233 | the common end of a request refines its specification |
| MemoryRegions.Handler.Search | sources/core/kernel/source/global/mm.c:196-206 | the search loop finds the first fit |
| MemoryRegions.Handler.GetRegion | sources/core/kernel/source/global/mm.c:287-300 | the region that covers an address, NULL exactly if none does |
| MemoryRegions.Handler.AbsorbRegions | sources/core/kernel/source/global/mm.c:181-189 | the merging loop of a fixed request, whose error return is unreachable |
| MemoryRegions.Handler.AllocateFixed | sources/core/kernel/source/global/mm.c:169-194 | refines the fixed request; outside the regions nothing is done and only a request that reaches behind the range fails |
| MemoryRegions.FixedExactly | sources/core/kernel/source/global/mm.c:169-194 | the same for the 64-bit sums of the code; a request of nothing, or one whose end wraps around, takes the rest of the region |
| MemoryRegions.Handler.Allocate | sources/core/kernel/source/global/mm.c:155-238 | tiling, links, `region_count` and `block_count` always stay right; while regions are maximal a request gets the lowest range that is free and long enough, exactly its pages come into use, and ENOMEM means there is none |
| MemoryRegions.NeedIsPages | sources/core/kernel/source/global/mm.c:156-162 | the request starts on the page of its address; the rounded size is the smallest number of pages that covers it from there exactly if that fits 64 bits, and too small otherwise |
| MemoryRegions.WrapsToNothing | sources/core/kernel/source/global/mm.c:156-162 | an instance: a request for all addresses but the first becomes one of nothing |
| MemoryRegions.Clone | sources/core/kernel/source/global/mm.c:101-136 | a copy on new regions that holds the same areas |
| IpChecksum.TwoFolds | sources/core/modules/net/source/ip.c:139-142 | the two-step fold of a 32-bit sum is the one's complement sum |
| IpChecksum.Fold | sources/core/modules/net/source/ip.c:166-168 | so is the looped fold |
| IpChecksum.Checksum | sources/core/modules/net/source/ip.c:128-143 | the complement of the fold of the 32-bit sum of all bytes, those at odd positions 256-fold, for odd lengths too |
| IpChecksum.SumIsBytes | sources/core/modules/net/source/ip.c:128-143 | the sum of words the code takes is that sum of all bytes, whatever their number |
| IpChecksum.DefinedChecksum | sources/core/modules/net/source/ip.c:128-143 | read in network order the checksum is the one of RFC 1071, as long as no carry is lost |
| IpChecksum.ChecksumExact | sources/core/modules/net/source/ip.c:128-143 | that is the complement of the one's complement sum exactly if the carries lost beyond 32 bits are a multiple of 0xFFFF and something is left, or there is nothing to sum |
| IpChecksum.SumFits | sources/core/modules/net/source/ip.c:128-143 | data of up to 128 KiB loses no carry |
| IpChecksum.CarryLost | sources/core/modules/net/source/ip.c:128-143 | an instance of a lost carry |
| IpChecksum.FilledIsZero | sources/core/modules/net/source/ip.c:128-207 | a block whose field was zero and then filled re-sums to zero, for every length and every content |
| IpChecksum.FillChecksum | sources/core/modules/net/source/ip.c:128-143 | the same for a header in memory |
| IpChecksum.PseudoIsSum | sources/core/modules/net/source/ip.c:145-207 | what is added for addresses, protocol and length is the sum of the twelve bytes of the pseudo header |
| IpChecksum.TransportChecksum | sources/core/modules/net/source/ip.c:145-207 | the same for TCP and UDP with the pseudo header, whatever the field held before |
| IpChecksum.SegmentChecksum | sources/core/modules/net/source/ip.c:145-207 | that checksum is the one of RFC 1071 over the pseudo header and all bytes of the segment, an odd number of them too |
| IpChecksum.ByteOrder | sources/core/modules/net/source/ip.c:128-143 | summing and storing in machine order gives the bytes defined in network order |
| IpFragments.CompleteBySize | sources/core/modules/net/source/ip.c:51-75 | if no byte comes twice, all have come exactly when the sizes add up; if all have come, the sizes add up exactly if none came twice |
| IpFragments.CountedTwice | sources/core/modules/net/source/ip.c:51-75 | instances of both failures: a datagram that is complete and never recognised, and one recognised with a byte missing |
| IpFragments.Record.Add | sources/core/modules/net/source/ip.c:51-71 | the record holds one fragment more and its counters follow from the fragments |
| IpFragments.Record.EntirelyReceived | sources/core/modules/net/source/ip.c:73-75 | in whatever order fragments come: without overlaps yes exactly when every byte has come, and with every byte there yes exactly if there is no overlap |
| IpFragments.Record.Generate | sources/core/modules/net/source/ip.c:90-105 | once every byte has come the buffer is the original payload, overlaps or not |
| PrintfText.DigitsRead | sources/core/kernel/source/lib/printf.c:545-550 | the digits read back give the value exactly when there was room for all of them |
| PrintfText.DigitsExact | sources/core/kernel/source/lib/printf.c:525-553 | the 32-character buffer is enough for all 64-bit values in bases 8, 10 and 16, and in base 2 exactly below two to the 32 |
| PrintfText.NumberInField | sources/core/kernel/source/lib/printf.c:431-553 | a number prints as blanks, sign, zeros, digits, blanks with the counts that flags, precision and width ask for, whenever these fit the buffer |
| PrintfText.NumberReads | sources/core/kernel/source/lib/printf.c:525-553 | its digits read back as the value, in base 2 exactly below two to the 32 |
| PrintfNumbers.NumberExact | sources/core/kernel/source/lib/printf.c:431-553 | a number is printed as the standard defines it, with sign, prefix, zeros, digits and spaces, exactly if all but the spaces fit the 32-character buffer, or only a space in place of a sign does not and the field has another |
| PrintfText.BufferTooShort | sources/core/kernel/source/lib/printf.c:458-553 | instances: a lost minus sign, a field not filled, a binary number cut |
| PrintfFormat.SignedUnique | sources/core/kernel/source/lib/printf.c:1211-1214 | the number read from an argument is the only one in the signed range that agrees with it in the low bits |
| PrintfFormat.IntegerOfIs | sources/core/kernel/source/lib/printf.c:1192-1240 | the argument is read as the number of its 8, 16, 32 or 64 low bits, in the signed range for d and i and the unsigned range otherwise |
| PrintfFormat.IntegerMeaning | sources/core/kernel/source/lib/printf.c:1155-1240 | an integer conversion with any flags but the alternative form, and any width and precision the buffer has room for, prints that number: sign, zeros and blanks as asked for, and digits that read back as it |
| PrintfDirectives.ParsedBack | sources/core/kernel/source/lib/printf.c:1050-1152 | a directive written with any flags, width, precision and length modifier is taken apart into exactly these |
| PrintfMeaning.ShownExact | sources/core/kernel/source/lib/printf.c:1155-1342 | every conversion prints what the standard defines for integers, with and without the alternative form, characters, strings and pointers, exactly if it is printable: the number fits the buffer, and the string or its field is not longer than `INT_MAX` |
| PrintfMeaning.DirectiveExact | sources/core/kernel/source/lib/printf.c:1050-1342 | the same for a directive as it is written, with the arguments its width and precision take |
| PrintfMeaning.FormatPrinted | sources/core/kernel/source/lib/printf.c:1041-1351 | a format of ordinary characters and such directives prints the characters and what the directives mean, in order, each with its own arguments |
| PrintfMeaning.PlainFormat | sources/core/kernel/source/lib/printf.c:1050-1056 | a format without a percent sign prints itself |
| PrintfMeaning.StringFormat | sources/core/kernel/source/lib/printf.c:1280-1309 | "%s" prints its string |
| PrintfText.SignKept | sources/core/kernel/source/lib/printf.c:458-522 | the minus sign of a decimal number is printed exactly if the precision is below 32 and no zero-filled field is longer than 32 |
| PrintfText.FieldFilled | sources/core/kernel/source/lib/printf.c:431-522 | a number, with or without prefix, fills its field exactly if the field is not to be filled with zeros or is at most 32 long |
| PrintfFormat.ParseAdvances | sources/core/kernel/source/lib/printf.c:1041-1351 | every directive ends behind its start and at most one character behind the terminator, so the loop terminates |
| PrintfEnds.TerminatedExactly | sources/core/kernel/source/lib/printf.c:1041-1351 | formatting stays inside the string exactly if its output never depends on the memory behind the terminator |
| PrintfEnds.RunsOverExactly | sources/core/kernel/source/lib/printf.c:1058-1152 | a directive makes the parser pass the terminator exactly if the string ends right behind its flags, its width, or the digits of its precision |
| PrintfEnds.TerminatedUnlessBreaksOff | sources/core/kernel/source/lib/printf.c:1041-1351 | so formatting stays inside the string exactly if none of its directives breaks off there |
| PrintfEnds.Instances | sources/core/kernel/source/lib/printf.c:1041-1351 | instances: a format that ends behind a width, a flag or a precision, and one that ends with the percent sign |
| Printf.Gadget.Put | sources/core/kernel/source/lib/printf.c:322-339 | every character is counted, and stored at its 32-bit position if that is below the limit; nothing behind the limit is written |
| Printf.Gadget.OutReversed | sources/core/kernel/source/lib/printf.c:431-453 | reversed text in its field, also when the padding loop compares 32-bit positions |
| Printf.Gadget.FinishInteger | sources/core/kernel/source/lib/printf.c:458-522 | zero fill, prefix and sign inside the buffer, then the field |
| Printf.WriteDigits | sources/core/kernel/source/lib/printf.c:545-550 | the digit loop |
| Printf.Gadget.PrintInteger | sources/core/kernel/source/lib/printf.c:525-553 | appends the text of the number |
| Printf.ParseDirective | sources/core/kernel/source/lib/printf.c:1058-1152 | flags, width, precision and length are taken apart as specified, including where the format ends early |
| Printf.ParseLength | sources/core/kernel/source/lib/printf.c:1122-1152 | the length field, doubled letters included, and where the format ends inside it |
| Printf.WidthArgument | sources/core/kernel/source/lib/printf.c:1062-1078 | a negative width argument is left alignment with its absolute value; no other flag changes |
| Printf.PrecisionArgument | sources/core/kernel/source/lib/printf.c:1080-1093 | a positive precision argument is used as it is, and a positive precision comes from nowhere but the argument or the format |
| Printf.IntegerForm | sources/core/kernel/source/lib/printf.c:1162-1223 | decimal exactly for d, i and u, and then no alternative form; no zero fill with a precision, no sign for unsigned conversions; no other flag is dropped or added |
| Printf.Gadget.FormatOne | sources/core/kernel/source/lib/printf.c:1050-1351 | one round prints the front of the output still to come |
| Printf.Gadget.Format | sources/core/kernel/source/lib/printf.c:1041-1351 | the loop prints the output of the format, whatever the format; `PrintfMeaning.FormatPrinted` says what that is |
| Printf.Gadget.Terminate | sources/core/kernel/source/lib/printf.c:342-352 | the buffer is what the specification says for outputs of every length, and nothing behind the limit has changed |
| Printf.Vsnprintf | sources/core/kernel/source/lib/printf.c:1354-1379 | for every format and every length of output: the count does not depend on n, and the buffer holds what the 32-bit positions leave, with a zero character, and nothing behind n |
| Printf.LimitedShort | sources/core/kernel/source/lib/printf.c:1354-1379 | for outputs shorter than two to the 32 that is the first min(length, n - 1) characters, a zero character, and the rest as before |
| AhciDevice.Device.ReadSectors | sources/core/modules/ahci/source/port.c:94-101 | whole sectors that hold a byte of the request |
| AhciDevice.Device.ReadPortion | sources/core/modules/ahci/source/device.c:4-30 | a portion of at least one byte arrives in place and nothing else in the buffer changes |
| AhciDevice.Device.Read | sources/core/modules/ahci/source/device.c:74-93 | for any start and size the buffer gets exactly the bytes of the disk, all that were asked for or all up to its end; an error exactly for a request that starts behind it |

## Left out

General:

- Locks, page tables, context switching and device registers: every operation is modelled as running with its lock held; disk transfers succeed.
- Addresses and sizes are unbounded numbers except where the text above names 32 or 64 bits.
- TCP sockets, `vector_remove` and what uses it, signals, `waitpid`, fork and execve, drivers other than the AHCI read path, and all applications.

By part:

- HeapLayout.MallocStep: asks for room below the heap (`Room`), because `malloc` never looks at the lower bound `heap_low` it was given.
- Heap: the debug build, `calloc`, and addresses that wrap around.
- FatVolume.Context.WriteChain: chains are given by their list of clusters, with entries 0 and 1 of the table reserved.
- FatSearch.AddEntry: names of 1 to 247 bytes without a zero byte; the directory holds proper items. If the chain of the directory grows, what the new cluster held before is read as further entries, so that only names found before are promised to be found where they were.
- FatRemove.Remove: the indices of the entries to remove are parameters, and what the allocated buffer holds; the directory holds proper items.
- FAT: mounting, renaming, timestamps, paths.
- Scheduler.Dispatcher.Declare: only for the thread on a CPU; for a queued thread the original takes a lock it already holds. A thread that restarts its context (`is_ignoring_ctx`) does not declare anything before it has switched.
- Scheduler.Dispatcher.Unpause: not for threads that are pausing on their CPU or have exited; for those `SchedulerModel.UnpauseExact` says what happens.
- Scheduler.Dispatcher.Handle: without signals and without waking threads in `waitpid`; handing over a thread for freeing is modelled as a log, since `scheduler_free_thread` is a stub.
- Scheduler.Dispatcher.Depart: without `exit_thread_routine`, which wakes the threads that wait for the process.
- Scheduler.Dispatcher.Seat: without the signal frame of the thread that starts.
- ExecStack.Image.Load: strings without zero bytes that fit the stack, and a user stack base above zero; the environment is given as its list of strings.
- PhysicalPages.Pages.Free: at least one page, not page zero, all in use and below the end of memory. `pmm_allocate_pages` and the lock and reserve calls are left out.
- Memory regions: `mm_free_region` and `mm_fork` are left out.
- IpFragments.Record.EntirelyReceived: for fragments that agree with one datagram. Sending, the decoding of flags, and finding the record of a datagram are left out.
- Printf.Vsnprintf: the memory behind the terminator of the format counts as zeros; `PrintfEnds` says when it matters. The store of `%n`, output through a function, and floating-point conversions (compiled out) are left out; a return value above the range of `int` is given as the unsigned count.
- PrintfFormat.IntegerMeaning: without the alternative form, and where the text fits the 32-character buffer; `PrintfMeaning.ShownExact` covers the rest.
- PrintfMeaning.FormatPrinted: directives whose conversion is not itself a flag, a digit, a dot, an asterisk or a length modifier; the text of `%p` is the one of the implementation, since the standard leaves it open.
- AhciDevice.Device.Read: 512-byte sectors, a disk of whole sectors and sums below two to the 64; writes are left out.
