# Arm2x86: a verified model of the translator's state

Arm2x86 is a dynamic binary translator from ARM to x86-64. This project models the
state around the translation itself and proves what that state promises. The
translation is an abstract function from guest bytes to host bytes; caches,
allocator, indexes, hashes and decoders are modelled statement by statement.

Each component comes in two parts. A specification module (`...Spec`, `...Runs`)
describes the operations on values and proves properties of them over all inputs and
over whole runs. A module with classes does what the C code does, in place, on linked
nodes, arrays and counters, and each of its methods is proved to act as the
specification says. So a property proved of the specification is a property of the
code.

| files | component |
|---|---|
| `Words.dfy` | machine words, byte memory, little-endian numbers, sequences without repetition |
| `Jumps.dfy` | registered jumps and their redirection on eviction |
| `TcacheSpec.dfy`, `TcacheRuns.dfy`, `TcacheRecency.dfy`, `Tcache.dfy` | the translation cache: hash chains and recency list over the same entries |
| `DbtSpec.dfy`, `Dbt.dfy` | the block cache of the runtime and its check for self-modifying code |
| `Crc.dfy` | both table-driven CRC-32 functions |
| `PcacheSpec.dfy`, `PcacheRuns.dfy`, `Pcache.dfy` | the persistent cache: entry files, accounting, cleanup |
| `MempoolSpec.dfy`, `Mempool.dfy` | the pool of executable memory |
| `CodeHash.dfy` | the content hash |
| `CodeSpace.dfy`, `LayeredSpec.dfy`, `LayeredRuns.dfy`, `Layered.dfy` | the four levels of a translation request, over one host memory |
| `ElfSpec.dfy`, `Elf.dfy` | the System V symbol index |
| `Leb128.dfy`, `PackedRelocsSpec.dfy`, `PackedRelocs.dfy` | LEB128 and packed relocations |
| `JniSignature.dfy` | the method descriptor parser |
| `PageProtectSpec.dfy`, `PageProtect.dfy` | the page protection tracker |

How the system is represented:

- Sizes and addresses are numbers below 2^64, and every addition or subtraction that
  can wrap in the source wraps here. Host memory is one byte array and a host pointer
  is an index into it; the directory of the persistent cache is a map from address to
  file.
- What the source asks of its surroundings (results of `mmap` and `malloc`, the clock,
  the order a directory is listed in, write errors, which files can be removed) is a parameter. What the kernel
  guarantees of a new mapping is a precondition: not empty, over no live mapping.
- Locks are left out: `dbt_lookup` calls `dbt_invalidate_block` while it holds the
  lock that the latter takes (`modules/arm2x86_dbt.c:80-84`), so only the behaviour
  without locks is modelled.

Where a promised property fails, the code is kept as it is, a lemma shows an input for
which it fails, and the property is proved under the exact condition for it. The
conditions that came out this way, with the failing input in brackets where the condition
does not name one itself:

- After an insertion a redirected jump site holds its redirection exactly if the last
  site redirected over it, whichever evicted block that jump led to, is the same site of
  the same kind (`TcacheSpec.EvictRedirectsIff`) [`Jumps.CloseJumpIsSpoiled`: two
  five-byte jumps side by side]. The dispatcher's address must be distinctive, that is, no tail of its
  bytes may be the start of a call or jump; by `Jumps.OverlapsAlwaysShowIff` this is
  exactly when two overlapping redirections always differ. For sites that do not overlap
  it does not matter (`TcacheSpec.EvictRedirectsSeparated`).
- Rehashing reverses chains, so resizing keeps a lookup's answer exactly if the
  address is not cached twice (`TcacheRuns.ResizeKeepsLookupIff`)
  [`TcacheRuns.ResizeChangesAnswer`]; clearing leaves jump records to blocks that are
  gone, whenever there is a record (`TcacheRuns.ClearKeepsTargetsCachedIff`).
- `dbt_invalidate_block` cuts the address to 32 bits (`DbtSpec.InvalidateReachesIff`)
  [`DbtSpec.HighBlockStays`]; a Thumb block found again is current if the bytes behind
  its first 256 are as they were, and only then for a translator that tells them apart
  (`DbtSpec.HitIsCurrentIff`) [`DbtSpec.ThumbBlockCanBeStale`].
- Vacated slots carry address 0, so a request for address 0 gets nothing exactly if the
  first slot in use with that address has been vacated, or none has it and there is no
  room, no memory or no translation (`DbtSpec.NoBlockIff`)
  [`DbtSpec.AddressZeroMeetsVacated`].
- The pool's limit never refuses (`MempoolSpec.LimitNeverRefuses`), its recorded total is
  what is mapped exactly if the initial size is a chunk size
  (`MempoolSpec.InitialTotalIff`), and a request is served with a region that holds it
  and lies in its chunk exactly if its size does not wrap, neither where it is rounded up
  nor where it is added to a chunk's offset (`MempoolSpec.AllocServesIff`)
  [`MempoolSpec.EmptyRegionComesAbout`, `MempoolSpec.OverrunComesAbout`].
- An operation of the persistent cache keeps the recorded total exact exactly if it
  neither drops a file for a mismatch without telling the total nor takes off the size of
  a file that cannot be removed (`PcacheRuns.PlayKeepsExactIff`)
  [`PcacheRuns.MismatchMakesInexact`, `PcacheRuns.StuckFileOverdraws`]. The index is
  exact after a rebuild only from zero (`PcacheRuns.RebuildExactIff`), and covers the
  files at the start only if they were counted or there are none
  (`PcacheRuns.OpenedCoversIff`) [`PcacheRuns.UncountedFileUnderflows`].
- A translation request for code that changed without an invalidation is answered
  correctly exactly if the translation cache misses or the translations are equal
  (`LayeredRuns.ChangedCodeAnsweredIff`) [`LayeredRuns.ChangedByteIsStale`].
- A symbol behind the first nameless one is not indexed (`ElfSpec.FoundIff`)
  [`ElfSpec.NamelessHidesTheRest`].
- A descriptor is given back whole exactly if it has at most 16 parameters, each with
  at most one array bracket, and no type of 64 characters or more
  (`JniSignature.ParsePrintIff`) [`JniSignature.DeepArrayIsSplit`]; one is read past its
  end exactly if it ends in a bracket and what is in front of that, behind the
  parenthesis, is taken off type by type with room for one more parameter
  (`JniSignature.DescriptorOverrunIff`) [`JniSignature.BareBracketOverruns`].
- The range test of a relocation is membership in the image, for every offset, exactly
  if the image's end does not wrap (`PackedRelocsSpec.InRangeIffUnwrapped`).
- A range is protected exactly if each page lies below the computed end, which can wrap,
  and is reached before the table is full, or has the protection already
  (`PageProtectSpec.AddSetsRangeIff`) [`PageProtectSpec.FullTableCutsRange`]; the last page
  of the address space is silently left out (`PageProtectSpec.ModifySetsIff`).

## Model

| member | source | states |
|---|---|---|
| Jumps.Redirection | modules/arm2x86_tcache.c:50-62 | a redirected site is 14 bytes long |
| Jumps.SiteRedirectedIff | modules/arm2x86_tcache.c:38-81 | after any series of records is redirected, the 14 bytes at the site of one of them hold its call or jump through the dispatcher if and only if the last of them whose site overlaps it is the same site of the same kind; for a dispatcher address of which no tail is the start of a call or jump |
| Jumps.SeparatedSitesRedirected | modules/arm2x86_tcache.c:38-81 | jumps whose sites do not overlap are all redirected, whatever the dispatcher's address |
| Jumps.PatchingLeavesTheRest | modules/arm2x86_tcache.c:45-63 | no byte outside the sites of removed jumps changes |
| Jumps.RemainingSplits | modules/arm2x86_tcache.c:64-77 | unlinking keeps the other records in their order |
| Jumps.MeetingRedirectionsDiffer | modules/arm2x86_tcache.c:50-62 | two different redirections at overlapping places differ in a common byte, so one destroys the other, if no tail of the dispatcher's address is the start of a call or jump |
| Jumps.OverlapsAlwaysShowIff | modules/arm2x86_tcache.c:50-62 | that condition on the address is exact: all overlapping different redirections differ if and only if it holds |
| Jumps.CloseJumpIsSpoiled | modules/arm2x86_tcache.c:38-81 | of two five-byte jumps side by side to one block, one is not redirected |
| Jumps.JumpList.Register | modules/arm2x86_tcache.c:18-35 | a new record goes to the front of the linked list, or the list is unchanged when memory is short |
| Jumps.JumpList.Patch | modules/arm2x86_tcache.c:38-81 | the walk over the linked list redirects and unlinks exactly the records of the evicted address |
| TcacheSpec.Hash | modules/arm2x86_tcache.c:183-191 | a hash is a 16-bit number |
| TcacheSpec.Clamp | modules/arm2x86_tcache.c:390-391 | a requested size is brought between 512 KB and 64 MB |
| TcacheSpec.TouchKeepsWellFormed | modules/arm2x86_tcache.c:222-254 | a lookup keeps chains and recency list over the same entries, each once, each in the bucket its hash names, with the byte count their sum |
| TcacheSpec.EvictOneKeepsWellFormed | modules/arm2x86_tcache.c:280-307 | one eviction keeps all of that |
| TcacheSpec.EvictKeepsWellFormed | modules/arm2x86_tcache.c:280-307 | so does evicting until there is room |
| TcacheSpec.PushKeepsWellFormed | modules/arm2x86_tcache.c:309-334 | so does adding an entry to chain and list |
| TcacheSpec.ResizeKeepsWellFormed | modules/arm2x86_tcache.c:386-432 | so does rehashing into another number of buckets |
| TcacheSpec.ClearKeepsWellFormed | modules/arm2x86_tcache.c:340-368 | so does clearing |
| TcacheSpec.EvictDropsShortestSuffix | modules/arm2x86_tcache.c:280-307 | making room drops exactly the shortest least-recently-used suffix of the list that leaves enough room |
| TcacheSpec.EvictRestrictsChains | modules/arm2x86_tcache.c:291-295 | in every chain the entries that stay keep their order |
| TcacheSpec.EvictForgetsJumps | modules/arm2x86_tcache.c:284-285 | exactly the jump records to evicted blocks go, and the others keep their order |
| TcacheSpec.EvictWritesOnlySites | modules/arm2x86_tcache.c:284-285 | eviction writes host memory only at the sites of the records that go |
| TcacheSpec.EvictRedirectsInOrder | modules/arm2x86_tcache.c:280-307 | making room writes exactly the redirections of the records of the blocks that go, victim after victim from the tail of the list |
| TcacheSpec.ForgottenIsRedirected | modules/arm2x86_tcache.c:280-307 | the records redirected are exactly those that are taken off the list |
| TcacheSpec.EvictRedirectsIff | modules/arm2x86_tcache.c:280-307 | when an insertion has made room, the site of a record that went holds its redirection if and only if the last site redirected over it, for whichever victim, is the same site and kind |
| TcacheSpec.EvictRedirectsSeparated | modules/arm2x86_tcache.c:280-307 | if no other record that went has a site that overlaps it, the site holds its redirection, whatever the dispatcher's address |
| TcacheSpec.InsertFitsOrIsAlone | modules/arm2x86_tcache.c:280-334 | after an insertion the bytes used are within the size or the new block is the only one, even after a shrinking resize |
| TcacheSpec.CountIsExactBelow2To64 | modules/arm2x86_tcache.c:152-154 | the byte count is the real sum of the sizes exactly while the sum is a 64-bit number |
| TcacheRuns.BucketedReverses | modules/arm2x86_tcache.c:412-421 | rehashing finds in a bucket the entry that came last in the old order |
| TcacheRuns.ResizeFindsLast | modules/arm2x86_tcache.c:412-421 | after a resize a lookup finds the last entry of its old chain with the address |
| TcacheRuns.FirstIsLastIff | modules/arm2x86_tcache.c:231-249 | the first and the last entry with an address are the same exactly if it occurs at most once |
| TcacheRuns.ResizeKeepsLookupIff | modules/arm2x86_tcache.c:386-432 | a resize that rehashes changes no lookup of an address if and only if the address is not cached twice |
| TcacheRuns.ResizeChangesAnswer | modules/arm2x86_tcache.c:386-432 | a run from an empty cache that inserts two blocks for one address and finds the older one after a resize |
| TcacheRuns.FindAnswersMap | modules/arm2x86_tcache.c:222-254 | if the list agrees with a map, a lookup answers by the map |
| TcacheRuns.PlayKeepsFaithful | modules/arm2x86_tcache.c:222-432 | each operation keeps the cache in agreement with the history of what was inserted, evicted and cleared |
| TcacheRuns.RunsAnswerHistory | modules/arm2x86_tcache.c:222-432 | after any run in which every insertion follows a miss, insertions that evict and then find no memory for their record included, a lookup returns exactly the block inserted for the address and not evicted or cleared since |
| TcacheRuns.FreshIsFaithful | modules/arm2x86_tcache.c:193-211 | a created cache meets what the run theorems start from |
| TcacheRuns.PlayKeepsTargetsCached | modules/arm2x86_tcache.c:18-35 | if jumps are registered only to cached blocks, each operation but clearing keeps every record's target cached |
| TcacheRuns.RunsKeepTargetsCached | modules/arm2x86_tcache.c:18-81 | the same over all runs without clearing, failed insertions included |
| TcacheRuns.ClearKeepsTargetsCachedIff | modules/arm2x86_tcache.c:340-368 | clearing keeps every record's target cached if and only if there is no record |
| TcacheRecency.UsedComesFirst | modules/arm2x86_tcache.c:238-246 | a block that is used becomes the first of the list in order of use |
| TcacheRecency.StepKeepsRecency | modules/arm2x86_tcache.c:222-432 | each operation keeps the list in the order of most recent use; an insertion needs no lookup before it |
| TcacheRecency.RunsStayByRecency | modules/arm2x86_tcache.c:222-432 | over all runs, with clears, locked entries, failed insertions and repeated insertions for an address, the recency list has the cached blocks in the order in which they were last found or inserted |
| TcacheRecency.StepKeepsSound | modules/arm2x86_tcache.c:222-432 | each operation, clearing included, keeps chains and recency list over the same entries with the byte count their sum |
| TcacheRecency.RunsStaySound | modules/arm2x86_tcache.c:222-432 | so do all runs |
| TcacheRecency.FreshIsSound | modules/arm2x86_tcache.c:193-211 | a created cache is where such runs start |
| Tcache.TranslationCache.constructor | modules/arm2x86_tcache.c:193-211 | a new cache is empty, with the sizes asked for or the defaults |
| Tcache.TranslationCache.Lookup | modules/arm2x86_tcache.c:222-254 | finds the first entry of its chain with the address, moves it to the front with prev and next mutual inverses again, and counts the use, the lookup and the miss |
| Tcache.TranslationCache.Insert | modules/arm2x86_tcache.c:271-338 | evicts, redirects jumps and links the new entry into chain and list; every outcome of the call is tied to the specification |
| Tcache.TranslationCache.EvictTail | modules/arm2x86_tcache.c:281-306 | one round of the eviction loop on the linked structures |
| Tcache.TranslationCache.Resize | modules/arm2x86_tcache.c:386-432 | the pointer-by-pointer rehash gives the chains of the specification and evicts nothing |
| Tcache.TranslationCache.Clear | modules/arm2x86_tcache.c:340-368 | empties table, list and counters and leaves the jump records |
| DbtSpec.TranslateKeepsCoherent | modules/arm2x86_dbt.c:183-225 | every cached block stays the translation of what it was made from, and the blocks' code stays disjoint and below the bytes used |
| DbtSpec.TranslateKeepsOldCode | modules/arm2x86_dbt.c:198-223 | a translation overwrites no code handed out before |
| DbtSpec.TranslateAnswers | modules/arm2x86_dbt.c:183-225 | a block returned is the translation of bytes whose first 256 are the guest's bytes there now, for address 0 as well |
| DbtSpec.ArmBlockIsCurrent | modules/arm2x86_dbt.c:183-225 | in the ARM modes the block is the translation of the 256 bytes there now |
| DbtSpec.NoBlockIff | modules/arm2x86_dbt.c:188-220 | for every address nothing is returned if and only if the first slot in use with the address has been vacated, or there is none that is current and the region is full or unmapped, there is no memory for the copy or the translator fails; the former only for address 0 |
| DbtSpec.RunsStayCurrent | modules/arm2x86_dbt.c:28-225 | over any run of translations, guest stores, invalidations and flushes, every block returned in an ARM mode is the translation of the code at that moment |
| DbtSpec.HitIsCurrentIff | modules/arm2x86_dbt.c:28-44 | a block found is current if the bytes behind the 256 compared are those it was made from, and only then if the translator tells the old and the new bytes apart |
| DbtSpec.UntouchedRunsStayCurrent | modules/arm2x86_dbt.c:28-225 | in every mode: over any run in which no request finds a block with a guest store to its bytes behind the first 256 since it was translated, every block returned is the translation of the code at that moment |
| DbtSpec.SparedRunsStayCurrent | modules/arm2x86_dbt.c:28-225 | so it is from a started cache if no guest store goes to those bytes of a block that is cached at the time |
| DbtSpec.ThumbBlockCanBeStale | modules/arm2x86_dbt.c:200-212 | a run in Thumb mode that returns the translation of code that is gone |
| DbtSpec.AddressZeroMeetsVacated | modules/arm2x86_dbt.c:50-57 | a run from a started cache that translates a block, invalidates it and then gets nothing for address 0, where a request for 0 at the start gets a block |
| DbtSpec.AddressZeroKeepsItsBlock | modules/arm2x86_dbt.c:50-57 | if the block for address 0 was translated before the one that is invalidated, it is still found |
| DbtSpec.InvalidateReachesIff | modules/arm2x86_dbt.c:46-60 | an invalidation takes out the block of its address if and only if the address is below 2^32 |
| DbtSpec.HighBlockStays | modules/arm2x86_dbt.c:46-60 | invalidating the block just translated at address 2^32 + 1 changes nothing |
| Dbt.BlockCache.constructor | modules/arm2x86_dbt.c:159-171 | a new table has no block in use and a region of its own, or none |
| Dbt.BlockCache.LookupBlock | modules/arm2x86_dbt.c:78-99 | the scan and the word-by-word comparison act as specified, including the invalidation of changed code |
| Dbt.BlockCache.InsertBlock | modules/arm2x86_dbt.c:101-142 | takes a new slot, or the first of the least often hit when all are taken |
| Dbt.BlockCache.InvalidateBlock | modules/arm2x86_dbt.c:46-60 | vacates the first slot with the cut address |
| Dbt.BlockCache.FlushCache | modules/arm2x86_dbt.c:62-76 | vacates all slots and starts the code region over |
| Dbt.BlockCache.TranslateBlock | modules/arm2x86_dbt.c:183-225 | the whole call acts as specified on the table and the code region, a failing allocation of the copy included |
| Crc.RunSplits | modules/arm2x86_pcache.c:74-81 | the checksum of a concatenation carries the register from one part to the next |
| Crc.TableStep | modules/arm2x86_pcache.c:60-72 | one table look-up and a shift by eight are eight bit steps |
| Crc.StepsInjective | modules/arm2x86_pcache.c:63-70 | any number of register steps is one-to-one |
| Crc.RunIsBitSerial | modules/arm2x86_pcache.c:74-81 | for every byte string the table-driven register is that of feeding the bits one by one, low bit first, into division by 0xEDB88320 |
| Crc.BurstDetected | modules/arm2x86_pcache.c:74-81 | replacing up to four consecutive bytes by others changes the checksum |
| Crc.EditDetected | modules/arm2x86_pcache.c:74-81 | two blocks of equal length that differ only within four consecutive bytes have different checksums |
| Crc.Table.Init | modules/arm2x86_pcache.c:53-72 | the table that starts out incomplete is filled with eight bit steps of every byte |
| Crc.Table.ComputeHash | modules/arm2x86_pcache.c:74-81 | the loop computes the checksum |
| Crc.Table.Ieee8023 | modules/arm2x86_syscall.c:75-107 | the instruction helper runs the same register over the low bytes of its data word |
| Crc.LowBytesOfWord | modules/arm2x86_syscall.c:96-100 | eight such bytes are the little-endian bytes of the word |
| CodeHash.AbsorbInjective | modules/arm2x86_easy.c:273-276 | one round of xor and odd multiplication is one-to-one in the state and in the byte |
| CodeHash.MixInjective | modules/arm2x86_easy.c:277-281 | the final mix is one-to-one |
| CodeHash.AbsorbAllInjective | modules/arm2x86_easy.c:273-276 | absorbing the same bytes keeps different states different |
| CodeHash.OneByteSeparates | modules/arm2x86_easy.c:271-283 | blocks of equal length that differ in exactly one byte have different hashes |
| CodeHash.Compute | modules/arm2x86_easy.c:271-283 | the loop computes the hash |
| MempoolSpec.ClassOf | modules/arm2x86_easy.c:53-61 | a size belongs to one of six classes |
| MempoolSpec.Round16 | modules/arm2x86_easy.c:159 | rounding gives the next multiple of 16, or 0 when it wraps |
| MempoolSpec.AllocKeepsSound | modules/arm2x86_easy.c:155-206 | an allocation keeps regions disjoint, 16-aligned from the chunk and inside one chunk, chunks disjoint and in the list of their class, and the counter of bytes used in step with offsets and requests |
| MempoolSpec.UsedIsExact | modules/arm2x86_easy.c:170-203 | the bytes used equal the sum of the chunk offsets and the sum of the rounded requests, without wrapping, because the chunks lie side by side in user space |
| MempoolSpec.AllocKeepsSoundIff | modules/arm2x86_easy.c:155-206 | it does so if and only if adding the rounded request to a chunk's offset does not wrap |
| MempoolSpec.OverrunIsUnsound | modules/arm2x86_easy.c:169-174 | a request that wraps gets a region outside its chunk |
| MempoolSpec.OverrunComesAbout | modules/arm2x86_easy.c:169-174 | a new pool of 64 KB, half of it handed out, gives a request of 2^64 - 16 bytes the rest |
| MempoolSpec.RealRequestsDoNotOverrun | modules/arm2x86_easy.c:169-174 | no request below 2^63 wraps |
| MempoolSpec.RegionHoldsRequestIff | modules/arm2x86_easy.c:159 | the region given has the rounded size, which holds the request if and only if the request is at most 2^64 - 16 |
| MempoolSpec.AllocServesIff | modules/arm2x86_easy.c:155-206 | a request that gets a region gets one that holds it and keeps the pool sound if and only if it neither overruns a chunk nor is above 2^64 - 16 |
| MempoolSpec.EmptyRegionComesAbout | modules/arm2x86_easy.c:155-174 | a new pool gives a request of 2^64 - 1 bytes an empty region, where the next region starts as well |
| MempoolSpec.InitIsSound | modules/arm2x86_easy.c:112-135 | a new pool is sound |
| MempoolSpec.RunsStaySound | modules/arm2x86_easy.c:155-206 | over any sequence of allocations the pool stays sound, no region is taken back, and the bytes used are exactly the sum of the offsets and of the rounded requests |
| MempoolSpec.LimitNeverRefuses | modules/arm2x86_easy.c:121-188 | from any initialisation and after any requests, a request is refused if and only if no chunk of its class has room and nothing can be mapped |
| MempoolSpec.InitialTotalIff | modules/arm2x86_easy.c:124-200 | from any initialisation and over any sequence of allocations, the recorded total is the number of bytes mapped if and only if nothing was mapped at first or the initial size is 64, 256, 1024, 4096, 16384, 65536 or a larger multiple of 16 |
| MempoolSpec.ChunkSizeIff | modules/arm2x86_easy.c:80-83 | those are exactly the sizes that are mapped as asked for |
| Mempool.Pool.constructor | modules/arm2x86_easy.c:112-135 | the initial chunk is mapped and put in the list of its class |
| Mempool.Pool.Alloc | modules/arm2x86_easy.c:155-206 | any request to any pool: first fit along the linked chunks, else a new chunk in front, as specified; a sound pool stays sound if and only if the request does not overrun |
| PcacheSpec.StoredFileReadsBack | modules/arm2x86_pcache.c:165-183 | a written header validates, and hash, size, flags and code read back as written |
| PcacheSpec.LookupKeepsCovers | modules/arm2x86_pcache.c:292-390 | a lookup keeps the recorded total at or above the files, and changes the files' sum only when it removes one |
| PcacheSpec.InvalidateKeepsCovers | modules/arm2x86_pcache.c:614-634 | an invalidation lowers total and files alike, except that the size of a file that cannot be removed is taken off the total |
| PcacheSpec.TrimRemovesPrefix | modules/arm2x86_pcache.c:564-572 | the removal loop takes a prefix of the sorted removable files and nothing underflows |
| PcacheSpec.TrimStopsInTime | modules/arm2x86_pcache.c:564-572 | it is the shortest prefix that reaches the target, or the whole list |
| PcacheRuns.CleanupRemovesOldest | modules/arm2x86_pcache.c:511-581 | a cleanup removes a shortest oldest-first prefix of the files that can be removed and ends at or under the target or with no such file |
| PcacheRuns.PlayKeepsCovers | modules/arm2x86_pcache.c:292-660 | an operation keeps the total at or above the files if and only if it does not take more off, for a file that cannot be removed, than the total was above them |
| PcacheRuns.PlayKeepsExactIff | modules/arm2x86_pcache.c:292-660 | an operation keeps an exact total exact if and only if it neither removes a mismatching file silently nor takes off the size of a file that stays |
| PcacheRuns.MismatchMakesInexact | modules/arm2x86_pcache.c:336-346 | a byte stored and looked up as another leaves its file's 97 bytes in the total |
| PcacheRuns.StuckFileOverdraws | modules/arm2x86_pcache.c:614-634 | a file that cannot be removed is off the total after an invalidation and there still |
| PcacheRuns.RunsStayCovered | modules/arm2x86_pcache.c:292-660 | over any run without such an operation the total covers the files, and without silent removals as well an exact total stays exact |
| PcacheRuns.OpenedCoversIff | modules/arm2x86_pcache.c:242-250 | after opening, the total covers the files if and only if they were counted or there are none |
| PcacheRuns.RebuildExactIff | modules/arm2x86_pcache.c:586-609 | rebuilding makes the total exact if and only if it was zero |
| PcacheRuns.UncountedFileUnderflows | modules/arm2x86_pcache.c:614-628 | a file that was not counted makes the total wrap when it is invalidated |
| PcacheRuns.LookupAnswersStoredIff | modules/arm2x86_pcache.c:292-390 | a lookup succeeds if and only if the address is stored with equal flags and, when verifying, equal code hash, and returns exactly the bytes stored |
| PcacheRuns.PlayKeepsTracks | modules/arm2x86_pcache.c:292-660 | each operation keeps every file what was last stored for its address |
| PcacheRuns.RunsStayTracked | modules/arm2x86_pcache.c:292-660 | over any run each file is what was stored since its last removal |
| PcacheRuns.StoreNeverReplaces | modules/arm2x86_pcache.c:424-435 | a store leaves an existing entry as it is and reports it |
| PcacheRuns.InvalidatedMisses | modules/arm2x86_pcache.c:614-634 | after an invalidation the lookup finds nothing, or what it found before if the file cannot be removed |
| PcacheRuns.EditedCodeMismatches | modules/arm2x86_pcache.c:336-346 | a verifying lookup with code edited within four consecutive bytes reports a mismatch and never the old translation, and the file is gone if it can be removed |
| Pcache.SortByTime | modules/arm2x86_pcache.c:553-562 | the exchange sort orders the first entries by time and only permutes them |
| Pcache.PersistentCache.constructor | modules/arm2x86_pcache.c:188-260 | opening counts the directory and cleans it up as configured |
| Pcache.PersistentCache.Lookup | modules/arm2x86_pcache.c:292-390 | the checks are made in order and files, access time and counters change as specified |
| Pcache.PersistentCache.Store | modules/arm2x86_pcache.c:395-495 | limits, cleanup, the existing entry and the written file, as specified |
| Pcache.PersistentCache.Cleanup | modules/arm2x86_pcache.c:511-581 | listing, sorting and removing, with files that cannot be removed passed over, come to the specified state |
| Pcache.PersistentCache.RebuildIndex | modules/arm2x86_pcache.c:586-609 | the loop adds the size of every file once |
| Pcache.PersistentCache.Invalidate | modules/arm2x86_pcache.c:614-634 | takes the size off, then removes the file, or reports that it could not |
| Pcache.PersistentCache.InvalidateAll | modules/arm2x86_pcache.c:639-660 | removes every file it can; the entry counter is cleared before it is added to the evictions |
| CodeSpace.TakeGivesUnused | modules/arm2x86_easy.c:584-609 | memory taken for a block, from the pool or mapped, was in no earlier block, and nothing taken before is given up |
| LayeredSpec.BlockAfterWrite | modules/arm2x86_easy.c:611-615 | writing to memory just taken changes no block that is in use |
| LayeredSpec.EvictIsQuiet | modules/arm2x86_tcache.c:280-307 | evicting changes no host code when no registered jump is to a guest address |
| LayeredRuns.SharedAnswers | modules/arm2x86_easy.c:576-581 | what is filed under the hash of some code is the translation of that code, if hashes do not collide |
| LayeredRuns.LookupHolds | modules/arm2x86_easy.c:548-555 | what a file yields is the translation of the code asked about |
| LayeredRuns.TranslateAnswers | modules/arm2x86_easy.c:523-666 | whichever level answers, the memory at the address returned holds the translation of the bytes given, and all levels stay in order |
| LayeredRuns.NoAnswerIff | modules/arm2x86_easy.c:538-648 | a request gets no address if and only if no level has the code (the cache by address, the file for this very code, a block under its hash) and there is no memory, the translator fails or the memory cannot be made executable |
| LayeredRuns.ChangedCodeAnsweredIff | modules/arm2x86_easy.c:540-546 | code replaced without an invalidation is answered with its translation if and only if the translation cache misses or the old code has the same translation |
| LayeredRuns.ChangedByteIsStale | modules/arm2x86_easy.c:540-546 | one byte is cached and replaced by another: the request gets the address of the old block, which is not the translation of the new byte |
| LayeredRuns.StepKeepsCoherent | modules/arm2x86_easy.c:523-666 | each request, invalidation or jump registration keeps all levels in order |
| LayeredRuns.RunsAnswerTranslations | modules/arm2x86_easy.c:890-904 | over all runs in which guest code changes only with an invalidation, every request answered is answered with the translation of the code given |
| LayeredRuns.FreshIsCoherent | modules/arm2x86_easy.c:394-480 | an instance just created is in order, whatever valid files an earlier process left |
| Layered.SharedTable.Lookup | modules/arm2x86_easy.c:317-326 | the walk along a bucket finds its first entry with the hash |
| Layered.SharedTable.Insert | modules/arm2x86_easy.c:328-341 | a new entry goes to the front of its bucket |
| Layered.Instance.TranslateEasy | modules/arm2x86_easy.c:523-666 | the call on the real cache, files, table and pool comes to the specified state and answer, with a record and a listing really made |
| Layered.Instance.RestoreBlock | modules/arm2x86_easy.c:555-570 | a block read from its file is copied to its mapping and cached |
| Layered.Instance.EnterBlock | modules/arm2x86_easy.c:650-663 | a translated block is entered by content, by address and in its file |
| Layered.Instance.TakeMemory | modules/arm2x86_easy.c:589-609 | the pool is asked first and a mapping is made when it gives nothing |
| ElfSpec.HashFits | modules/arm2x86_elf.c:719-729 | the hash of a name is a 28-bit number |
| ElfSpec.MembersDecrease | modules/arm2x86_elf.c:657-673 | along every chain the symbol indices strictly decrease, so a lookup ends |
| ElfSpec.FindIsScan | modules/arm2x86_elf.c:464-493 | the index finds what a scan from the end down finds |
| ElfSpec.FoundIff | modules/arm2x86_elf.c:464-493 | a name is found if and only if a defined global or weak symbol with a nonzero value has it before the first nameless symbol, and the one found has the highest index |
| ElfSpec.NamelessHidesTheRest | modules/arm2x86_elf.c:658 | a table in which a defined symbol is not found because a nameless one comes first |
| Elf.SymbolIndex.constructor | modules/arm2x86_elf.c:632-674 | the loop builds bucket and chain arrays that hold exactly the indexed symbols |
| Elf.SymbolIndex.HashName | modules/arm2x86_elf.c:719-729 | the loop over a terminated string gives the bucket of its hash |
| Elf.SymbolIndex.Lookup | modules/arm2x86_elf.c:467-482 | the walk along the chain array answers as the specification |
| Elf.SymbolIndex.GetSymbol | modules/arm2x86_elf.c:464-482 | a name that is found yields its symbol's place in memory |
| Leb128.UnsignedRoundTrip | modules/arm2x86_syscall.c:1538-1553 | every 64-bit number in its canonical encoding, in front of anything, decodes to itself and takes exactly its own bytes |
| Leb128.SignedRoundTrip | modules/arm2x86_syscall.c:1564-1584 | the same for every signed 64-bit number |
| Leb128.UnsignedLength | modules/arm2x86_syscall.c:1538-1553 | a number below 2^(7n) has an encoding of at most n bytes |
| Leb128.GroupAdds | modules/arm2x86_syscall.c:1545-1549 | or-ing in a shifted group adds it modulo 2^64 |
| Leb128.SignExtends | modules/arm2x86_syscall.c:1577-1580 | or-ing in the sign bits gives the signed value |
| Leb128.DecodeUnsigned | modules/arm2x86_syscall.c:1538-1553 | the loop stops behind the first byte without the top bit and returns the value modulo 2^64, for every encoding of at most ten bytes |
| Leb128.DecodeSigned | modules/arm2x86_syscall.c:1564-1584 | the same with sign extension |
| PackedRelocsSpec.WordIsTarget | modules/arm2x86_syscall.c:1678-1689 | the word at an in-range offset ends as load bias plus addend, if no later relocation overlaps it |
| PackedRelocsSpec.OtherBytesStay | modules/arm2x86_syscall.c:1678-1689 | no byte outside the words at in-range offsets changes |
| PackedRelocsSpec.InRangeIs | modules/arm2x86_syscall.c:1680-1684 | the range test is that the offset lies in the image, as long as the image's end does not wrap |
| PackedRelocsSpec.InRangeIffUnwrapped | modules/arm2x86_syscall.c:1680-1684 | the range test is membership in the image for every offset if and only if the image's end does not wrap |
| PackedRelocsSpec.WriteStaysInsideIff | modules/arm2x86_syscall.c:1678-1689 | the eight bytes written stay inside the image exactly when the image has eight bytes from the offset on |
| PackedRelocs.Module.ApplyPacked | modules/arm2x86_syscall.c:1643-1768 | packing any groups of relocations that look up no symbol and applying the section performs exactly the first `count` of them, at the prefix sums of the deltas |
| PackedRelocs.Module.ApplyDeltas | modules/arm2x86_syscall.c:1672-1767 | the inner loop performs the relocations of one group up to the number wanted |
| PackedRelocs.Module.ReadGroup | modules/arm2x86_syscall.c:1662-1670 | the head of a group reads back as packed |
| JniSignature.ParsePrintIff | modules/arm2x86_syscall.c:2908-2971 | parsing a printed descriptor gives back its types if and only if there are at most 16 parameters, each with at most one bracket, and all types have fewer than 64 characters |
| JniSignature.TooManyRejected | modules/arm2x86_syscall.c:2921-2964 | a descriptor with more than 16 such parameters is rejected |
| JniSignature.DeepArrayIsSplit | modules/arm2x86_syscall.c:2935-2953 | a two-dimensional array parameter is split in two |
| JniSignature.OverrunEndsInBracket | modules/arm2x86_syscall.c:2935-2953 | only a string that ends in a bracket is read past its end |
| JniSignature.OverrunIff | modules/arm2x86_syscall.c:2908-2953 | a string that ends in a bracket is read past its end if and only if what is in front of the bracket is taken off, type by type, with room for one more parameter |
| JniSignature.DescriptorOverrunIff | modules/arm2x86_syscall.c:2908-2953 | so exactly these descriptors are read past their end |
| JniSignature.BareBracketOverruns | modules/arm2x86_syscall.c:2935-2953 | the descriptor of a parenthesis and a bracket is one |
| JniSignature.MethodSignature.Parse | modules/arm2x86_syscall.c:2908-2971 | the structure is cleared and filled in, or failure reported, as specified; what is left in it after a failure is specified too, down to the bracket of an unfinished array |
| PageProtectSpec.AddPagesSets | modules/arm2x86_pageprot.c:47-66 | the pages reached before the table is full get the protection and no other page changes |
| PageProtectSpec.AddSetsRangeIff | modules/arm2x86_pageprot.c:34-69 | for every address and size: a range and nothing else gets the protection if and only if each page lies below the computed end and is reached with room left, or has the protection already |
| PageProtectSpec.RangeEnd | modules/arm2x86_pageprot.c:43-44 | the computed end covers the range asked for when it does not wrap, and never goes beyond it |
| PageProtectSpec.FullTableCutsRange | modules/arm2x86_pageprot.c:47-49 | with room for one page, adding two reports success and protects only the first |
| PageProtectSpec.ModifySetsIff | modules/arm2x86_pageprot.c:76-91 | a page gets the protection if and only if it is tracked or can be added |
| PageProtectSpec.CheckAnswersMap | modules/arm2x86_pageprot.c:97-114 | access is refused exactly to a tracked page whose protection does not allow it |
| PageProtectSpec.FaultActs | modules/arm2x86_pageprot.c:120-149 | a fault is handled exactly on a readable page that is not writable, which becomes writable; nothing else changes |
| PageProtectSpec.FaultLowers | modules/arm2x86_pageprot.c:120-149 | each handled fault leaves one readable and not writable page fewer |
| PageProtectSpec.FaultsEnd | modules/arm2x86_pageprot.c:120-149 | of any series of faults exactly as many are handled as such pages disappear, so retrying ends |
| PageProtectSpec.RunsStayValid | modules/arm2x86_pageprot.c:34-149 | over any run pages are tracked at most once, at aligned addresses, and none is forgotten |
| PageProtect.PageProtector.Add | modules/arm2x86_pageprot.c:34-69 | the nested loops act on the table as specified |
| PageProtect.PageProtector.Modify | modules/arm2x86_pageprot.c:76-91 | changes the page in place or adds it |
| PageProtect.PageProtector.Check | modules/arm2x86_pageprot.c:97-114 | answers as specified |
| PageProtect.PageProtector.HandleFault | modules/arm2x86_pageprot.c:120-149 | the scan counts the fault and lets the write through as specified |

## Left out

- The translation of instructions: it is an abstract function of the guest bytes (and, in the block cache, of mode and address), so relative branches and the translator's own context are not modelled; it is assumed to write no more than the memory estimated for it.
- The peephole and hot-block passes, the Thumb state machine, trace, jump tables, batch translation, SVE and NEON emission.
- Locks, threads, signals and `mprotect`: in particular, that a page of the pool made read-only for one block cannot be written for the next (modules/arm2x86_easy.c:630-648).
- Tcache.TranslationCache.EvictTail: the `OWNED` and `MMAP` flags of an entry are recorded, but the memory they free or unmap is not taken out of the host memory; no code path of the layered lookup sets them.
- Tcache.TranslationCache.Insert: likewise for the blocks it evicts.
- Tcache.TranslationCache.Clear: likewise for the entries it frees and the code they own.
- The `LOCKED` flag is a field that stops eviction in the specification, but nothing sets it.
- The automatic resizing by miss rate and the hit rate of the persistent cache, both floating point; resizing itself is modelled for every size.
- Jumps that the translator registers carry host addresses (modules/arm2x86_translate64.c:209), which are never the guest address of an evicted block; the jump theorems are about records with guest addresses, and the layered theorems allow the others.
- The payload hash in an entry file: it is written and never checked by a lookup, so a damaged code section would be returned; files are assumed to be as written, or absent.
- Pcache.PersistentCache.constructor: creating the directories cannot fail, and at most 1000 files are listed, which is all the source's array holds.
- Pcache.PersistentCache.Store: at most 1000 files are listed when it cleans up.
- Pcache.PersistentCache.Cleanup: at most 1000 files are listed.
- PcacheRuns.RunsStayCovered: assumes that the recorded total does not reach 2^64, and listings of at most 1000 files, which is all the array of the cleanup holds.
- Other files in the directories of the persistent cache; a failed write of a new file is a parameter.
- Other entry points over the same tables: `arm2x86_translate_addr` hashes 64 bytes whatever the block's size, and an import files a block under the hash of its host code (modules/arm2x86_easy.c:1355-1356); the layered theorem is about `arm2x86_translate_easy` and `arm2x86_invalidate_easy`.
- LayeredRuns.RunsAnswerTranslations: assumes a verifying persistent cache, as configured by default, and that the checksums and hashes of the codes in use do not collide.
- Layered.Instance.TranslateEasy: memory mapped for a block whose translation fails stays taken, where the source unmaps it; pages of the pool stay writable; and a translator that fails has written nothing outside the memory it was given.
- An instance without a pool is one whose pool is never given memory; an instance without a persistent cache is one whose cache is disabled.
- Dbt.BlockCache.LookupBlock: the hit counter is an unbounded number, so its overflow after 2^31 hits is not modelled.
- Elf.SymbolIndex.GetSymbol: the GNU hash table that is searched after a miss is not part of this model.
- The GNU hash stage, 32-bit modules, symbol versions and prebuilt hash sections of the ELF loader; failed allocation of the chain array, after which the bucket pointer dangles.
- Elf.SymbolIndex.constructor: the chain array is as long as the symbol table, that is, the number of chain entries is not zero; with none the source writes outside the array it allocates.
- PackedRelocs.Module.ReadGroup: only heads as a packer writes them, not malformed ones.
- PackedRelocs.Module.ApplyPacked: only types that look up no symbol, 64-bit modules, sections that no relocation overwrites, and an image followed by seven bytes of mapped memory; how malformed sections are read is not modelled.
- Leb128.DecodeUnsigned: encodings longer than ten bytes shift by more than the word and are undefined in the source.
- JniSignature.MethodSignature.Parse: the descriptors that are read past their end are excluded.
- RELR relocations, the system call table, JNI stubs, performance counters and printing.
