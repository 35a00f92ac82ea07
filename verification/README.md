# Verified models of the bootloader library's algorithms

Most of this repository programs registers. This project models the parts whose correctness
is decided by an algorithm, and proves what they promise:

- **SMMU page tables** (`bdk/mem/smmu.c`): a bump page allocator, lazily allocated tables, 4 KB
  and 4 MB mappings. The hardware's two-level walk over real memory words is proved equal to a
  flat last-writer-wins map, over any run of calls, without disturbing other domains.
- **Bootrom patch chain** (`bdk/soc/fuse.c`): two extended Hamming codes decoded in place, and a
  chain of such blocks walked backwards through the fuse array. One flipped bit per block does
  not change what is read, except in one case, for which the exact condition is proved.
- **Heap** (`bdk/mem/heap.c`, the build with defragmentation): the intrusive doubly linked list,
  laid out in the memory it manages, is proved to be a tiling of that memory; one pass of
  merging is complete; the payloads of others are untouched.
- **XTS and CMAC drivers** (`bdk/sec/se.c`) over an abstract AES engine: doubling in GF(2^128),
  both byte orders, one-block and three-pass forms, resumable tweaks, sectors, and AES-CMAC of
  RFC 4493.
- **Calendar** (`bdk/rtc/max77620-rtc.c`): both closed-form conversions against a calendar that
  counts day by day.
- **State machines**: the PLL shared by four SD/MMC controllers (`bdk/soc/clock.c`), the storage
  window editor (`ums-loader/main.c`), the Joy-Con checksum (`bdk/input/joycon.c`).

Code that works in place is modelled by classes, arrays and loops, each proved against a
specification function; the main results are lemmas about those functions. Unsigned words are
numbers below 2^32 (`Bits.u32`) with wrap-around written out where it can happen; in the
checksum they are bit-vectors of 8 bits, and the PLL's user mask is the set of its bits.

| File | Contents |
|---|---|
| `Bits.dfy` | exclusive or, single bits and parity on numbers |
| `PatchCode.dfy`, `PatchHash.dfy`, `PatchHead.dfy`, `PatchChain.dfy`, `PatchExample.dfy` | the two codes, their in-place decoders, the chain, a chain cut short |
| `SmmuLayout.dfy`, `Smmu.dfy`, `SmmuRuns.dfy`, `SmmuDomains.dfy`, `SmmuExamples.dfy` | words and walk, the builder, runs of calls on one domain and on many, 4 MB entries in the way |
| `HeapNodes.dfy`, `Heap.dfy`, `HeapRuns.dfy` | the node list, the list in memory, runs of calls |
| `Gf128.dfy`, `GfMul.dfy`, `Xts.dfy`, `XtsDrivers.dfy`, `Cmac.dfy` | the field, the doubling loops, the modes, the drivers |
| `Calendar.dfy`, `Rtc.dfy` | the day-by-day calendar, the conversions |
| `Pllc4.dfy`, `Selector.dfy`, `SubStorage.dfy`, `JoyCrc.dfy` | the state machines and the checksum |

## What was found

- A decoder that reports "corrected" has not always found a codeword one bit away: twelve
  syndromes are taken for errors in bits that the code does not cover
  (`PatchCode.CorrectedExactly`, `PatchCode.MiscorrectionExample`).
- A fault that clears the size field of a block ends the chain early, without an error
  (`PatchChain.DamagedChainReadsClean`, `PatchExample.CutShortExample`).
- `smmu_map` onto a slot with a permitted 4 MB entry takes the entry for a table and the
  mapping is lost (`SmmuRuns.MappedIsFlatExactly`, `SmmuExamples.LostMapping`); the write can
  even change another domain (`SmmuExamples.StrayWrite`).
- `smmu_reset_heap` does not flush, and neither does the next domain: a translation in between
  can be stale (`SmmuDomains.SeenCurrent`, `SmmuDomains.StaleExample`).
- `calloc` multiplies in 32 bits (`Heap.CallocCoversExactly`, `Heap.CallocExample`).
- `se_aes_cmac_128` does not compute the standard's tag of the empty message
  (`Cmac.TagExactly`, `Cmac.EmptyMessageExample`).
- A partition that begins behind the end of its device puts the storage window outside, where
  the offset editor can hang (`SubStorage.Config.Run`, `SubStorage.HangExample`).
- The comment at `bdk/soc/fuse.c:268` names the mask `0xfff00000`; the code keeps the other
  twenty bits, and the model follows the code.

## Model

| member | source | states |
|---|---|---|
| PatchHash.FoldParity | bdk/soc/fuse.c:198-205 | folding a word in halves leaves the exclusive or of all its bits |
| PatchHash.Parity32Even | bdk/soc/fuse.c:192-206 | the result is the parity of all bits of all words |
| PatchHash.HashLoop | bdk/soc/fuse.c:252-265 | the nested loops accumulate the exclusive or of the positions of all set bits |
| PatchHash.HashIsSyndrome | bdk/soc/fuse.c:248-266 | that hash, with the check bits added, is the syndrome of the parity-check matrix |
| PatchHash.TakeHash | bdk/soc/fuse.c:248-269 | the syndrome is obtained, and word 0 is left with its low twenty bits |
| PatchHash.OneCheckBit | bdk/soc/fuse.c:285-292 | counting set bits decides whether the syndrome is the column of a check bit |
| PatchHash.PatchHashMulti | bdk/soc/fuse.c:245-299 | the in-place decoder performs syndrome decoding, return code and every word, and returns 0 exactly for codewords; the rest of the buffer stays |
| PatchCode.FlipEffect | bdk/soc/fuse.c:247-266 | flipping any bit adds its column to the syndrome and inverts the parity |
| PatchCode.ColumnsDistinct | bdk/soc/fuse.c:252-266 | all columns differ, except those of the parity bit and of the excluded bits, which are zero |
| PatchCode.ColumnBits | bdk/soc/fuse.c:256-266 | check bit k covers the data bits at the positions whose bit k is set, and check bit 14 all of them |
| PatchCode.SingleErrorCorrected | bdk/soc/fuse.c:271-298 | any one flipped bit is corrected, for up to 512 words; a flip in bits 20..31 of word 0 returns 1 and inverts bit 15 |
| PatchCode.DoubleErrorDetected | bdk/soc/fuse.c:279-280 | any two flipped bits return 3, unless both have zero columns |
| PatchCode.CorrectedExactly | bdk/soc/fuse.c:282-298 | the result 1 means distance one from a codeword or one of the named miscorrected syndromes, never both |
| PatchCode.ReturnCodes | bdk/soc/fuse.c:271-298 | 3 exactly for even parity off the code, 2 exactly for odd parity that nothing explains |
| PatchCode.MiscorrectionExample | bdk/soc/fuse.c:282-298 | three flipped bits of an all-zero block are reported as corrected although no codeword is one bit away |
| PatchHead.PatchHashOne | bdk/soc/fuse.c:208-243 | the decoder of bits 20..31 performs syndrome decoding with the table of columns |
| PatchHead.TableOfColumns | bdk/soc/fuse.c:61 | powers of two for the check bits 20..23, zero for the parity bit 24, the other numbers up to 11 in order behind it |
| PatchHead.ReturnCodes | bdk/soc/fuse.c:220-242 | 3 exactly for even parity with a nonzero hash, 2 exactly for odd parity with a hash that is no column |
| PatchHead.SingleErrorCorrected | bdk/soc/fuse.c:214-240 | one flipped bit among 20..31 is corrected; flips below are not touched |
| PatchHead.DoubleErrorDetected | bdk/soc/fuse.c:230-231 | two flipped bits among 20..31 return 3 |
| PatchHead.AcceptedExactly | bdk/soc/fuse.c:208-243 | 0 exactly for codewords, 1 exactly at distance one, and success always leaves a codeword |
| PatchChain.AddressesDistinct | bdk/soc/fuse.c:319-329 | on both chips the fuse addresses read lie in the array and never repeat, the jump included |
| PatchChain.ReadingOrder | bdk/soc/fuse.c:311-329 | addresses go down from 191, and on T210B01 from 176 to 255 |
| PatchChain.BufferLimit | bdk/soc/fuse.c:303-317 | a chain of 79 words is read, what would make it 80 is not |
| PatchChain.WordFields | bdk/soc/fuse.c:335-355 | a word 0 is its size field, its patch count and the bits around them |
| PatchChain.CallIsWord | bdk/soc/fuse.c:340-344 | a callback is the whole patch word: half the even offset above, the value below |
| PatchChain.CallsInOrder | bdk/soc/fuse.c:336-346 | the callbacks of a block are those of the words behind word 0, in order |
| PatchChain.ReadBlock | bdk/soc/fuse.c:319-329 | a block lands in the buffer in reading order and the address moves on past the jump |
| PatchChain.PatchBlock | bdk/soc/fuse.c:331-348 | the corrected block's callbacks are made and the stored word 0 is put back |
| PatchChain.ReadIpatch | bdk/soc/fuse.c:301-359 | the walk terminates, stays within the buffer, reads each address at most once, and is the recursive walk of the chain |
| PatchChain.BlockRepaired | bdk/soc/fuse.c:331-346 | a block with one flipped bit yields the patches of the undamaged one |
| PatchChain.HeadRepaired | bdk/soc/fuse.c:352-355 | and the size of the next block |
| PatchChain.FaultStep | bdk/soc/fuse.c:313-356 | one damaged block makes the clean callbacks and hands on to the clean rest, unless its stored size is now zero |
| PatchChain.FaultsTolerated | bdk/soc/fuse.c:301-359 | with at most one flipped bit per block the walk returns 0 with the clean callbacks up to the first cleared size field |
| PatchChain.DamagedChainReadsClean | bdk/soc/fuse.c:349-350 | the damaged and the clean chain are read alike if and only if no callback lies behind a cleared size field |
| PatchChain.DoubleFaultStops | bdk/soc/fuse.c:332-333 | two flipped bits in a block of a clean chain end the walk with 1 and no callback of that block |
| PatchChain.DoubleHeadFaultStops | bdk/soc/fuse.c:349-353 | two flipped bits in the size field and its check bits leave the block's callbacks and end the walk with 3, or with 0 if the field reads zero |
| PatchChain.CheckPatchedRcm | bdk/soc/fuse.c:448-476 | the scan is true exactly if a block of the chain as stored has a patch at 0x769A, or one of the two early tests holds |
| PatchChain.CleanScan | bdk/soc/fuse.c:455-473 | a clean chain stays in the array, and the scan finds the offset exactly if the chain has a callback at it |
| PatchChain.RcmOffset | bdk/soc/fuse.c:467-468 | 0x769A is the offset looked for, and no other |
| PatchExample.CutShortExample | bdk/soc/fuse.c:349-350 | a clean chain with one callback that one flipped bit makes read as empty, with no error |
| SmmuLayout.FieldsOfTable | bdk/mem/smmu.h:33-38 | writing the table field stores its low 22 bits and keeps every other bit |
| SmmuLayout.FieldsOfHuge | bdk/mem/smmu.h:40-46 | writing the 4 MB page field stores its low 12 bits and keeps every other bit |
| SmmuLayout.WalkInWords | bdk/mem/smmu.h:30-57 | the walk in the words of memory, index by index and bit by bit |
| SmmuLayout.PteWrite | bdk/mem/smmu.c:216-219 | writing one table entry changes one page of one domain's translation, all other domains and pages alike |
| SmmuLayout.TableInstall | bdk/mem/smmu.c:190-203 | replacing an entry without permission by a table of such entries is invisible to every domain, and ownership is kept |
| SmmuLayout.HugeWrite | bdk/mem/smmu.c:235-238 | writing a 4 MB entry changes that slot of that domain only |
| SmmuLayout.DirectoryInstall | bdk/mem/smmu.c:80-89 | a fresh directory translates nothing and disturbs nobody |
| SmmuLayout.OutsideFrame | bdk/mem/smmu.c:70-78 | writes outside the allocated pages change no translation |
| Smmu.Tables.ResetHeap | bdk/mem/smmu.c:135-138 | the bump pointer returns to its start and no domain is left |
| Smmu.Tables.Translate | bdk/mem/smmu.c:96-106 | a lookup yields what is cached or else what the tables say, which is the same as long as nothing cached is out of date |
| Smmu.Tables.PageZalloc | bdk/mem/smmu.c:70-78 | the pages handed out are zeroed and above everything in use; all translations stay |
| Smmu.Tables.PdirAlloc | bdk/mem/smmu.c:80-89 | each directory entry names its own slot without permission |
| Smmu.Tables.InitDomain | bdk/mem/smmu.c:140-153 | the new domain translates nothing, is distinct from all others, and they translate as before |
| Smmu.Tables.AllocTable | bdk/mem/smmu.c:190-205 | the slot gets a fresh table of entries without permission, with the translation unchanged and the cache emptied |
| Smmu.Tables.GetPte | bdk/mem/smmu.c:180-209 | the word returned is the one the hardware walk reads for the address, with at most one table added |
| Smmu.Tables.WritePage | bdk/mem/smmu.c:216-219 | one iteration wherever its write goes: exactly one word changes once the table is there |
| Smmu.Tables.MapPage | bdk/mem/smmu.c:216-219 | one page is mapped, or the write goes astray without effect if the slot has a permitted 4 MB entry |
| Smmu.Tables.Map | bdk/mem/smmu.c:211-226 | page k of the range goes to iopa + 4096k with the attribute, everything else keeps its translation, ownership and other domains are kept, and the page count grows by the tables that were missing |
| Smmu.Tables.MapHuge | bdk/mem/smmu.c:228-245 | each slot of the range gets its 4 MB region, replacing tables, and nothing else changes |
| Smmu.MappedStep | bdk/mem/smmu.c:214-223 | mapping k pages and then the next is mapping k + 1, with the same tables added |
| SmmuRuns.Run | bdk/mem/smmu.c:211-245 | after any run of both calls the walk is the flat run, the other domains translate as before and exactly the needed tables were allocated |
| SmmuDomains.RunAll | bdk/mem/smmu.c:70-245 | in any run of new domains, pages for other uses, mappings, flushes, translations and resets, every domain, old or new, ends with the flat run of its own calls since the last reset, and the translations are those of the tables and the cache |
| SmmuDomains.SeenCurrent | bdk/mem/smmu.c:96-138 | every translation is current, unless made between a reset and the next flush or mapping |
| SmmuDomains.StaleExactly | bdk/mem/smmu.c:96-138 | a lookup is stale if and only if its page is cached with another entry than the tables have |
| SmmuDomains.StaleExample | bdk/mem/smmu.c:135-153 | after a reset a new domain in the same page, which translates nothing, still yields the old entry |
| SmmuDomains.Isolated | bdk/mem/smmu.c:70-245 | calls on other domains, new domains and other pages drop out of what a domain translates; a domain created in the run starts from nothing |
| SmmuDomains.OneFlat | bdk/mem/smmu.c:211-245 | one call of either kind is one step of the flat run |
| SmmuRuns.RunIsFlat | bdk/mem/smmu.c:211-245 | directories and tables disappear: the run is a run on a flat map |
| SmmuRuns.LastWriterWins | bdk/mem/smmu.c:211-245 | the last call covering a page decides its target and attribute; an uncovered page keeps its own |
| SmmuRuns.CoversAddresses | bdk/mem/smmu.c:211-245 | an aligned call covers exactly the addresses of its pages or regions |
| SmmuRuns.TargetAddress | bdk/mem/smmu.c:211-245 | a covered address leads to the page of the address as far behind iopa, with the attribute |
| SmmuRuns.HugeIsPages | bdk/mem/smmu.c:228-245 | mapping r regions translates like mapping 1024 r pages |
| SmmuRuns.MapSplits | bdk/mem/smmu.c:211-226 | mapping m + n pages is mapping m and then n |
| SmmuRuns.MappedIsFlatExactly | bdk/mem/smmu.c:186-187 | the flat map is reached if and only if pages under a permitted 4 MB entry already had the wanted translation |
| SmmuRuns.LostMappingExample | bdk/mem/smmu.c:186-187 | one 4 MB entry in the way, and the mapping is lost |
| SmmuExamples.LostMapping | bdk/mem/smmu.c:180-245 | the same on the page tables: a new domain, a region, a page on top of it |
| SmmuExamples.StrayWrite | bdk/mem/smmu.c:186-219 | a mapping aimed at a 4 MB entry of one domain gives another domain a translation that it never had |
| HeapNodes.AllocateKeepsTiling | bdk/mem/heap.c:59-111 | allocation keeps the nodes back to back, growing the extent only by an appended node |
| HeapNodes.AllocateKeepsApart | bdk/mem/heap.c:63-91 | a split leaves no two free neighbours |
| HeapNodes.AllocateAddsOne | bdk/mem/heap.c:59-111 | exactly one node becomes live; it is new, and larger than asked for by less than 128 bytes |
| HeapNodes.SplitExactly | bdk/mem/heap.c:66-88 | a node is split exactly if 128 bytes or more are left, of which a header of 32 is taken |
| HeapNodes.PassSeparates | bdk/mem/heap.c:122-136 | one pass leaves no two free neighbours, from any list |
| HeapNodes.PassKeepsTiling | bdk/mem/heap.c:122-136 | the pass keeps the same memory covered |
| HeapNodes.FreedResult | bdk/mem/heap.c:114-138 | freeing keeps the extent, restores the absence of free neighbours and removes exactly the freed node from the live ones |
| HeapNodes.Canonical | bdk/mem/heap.c:120-136 | extent and live nodes determine the list once no two free nodes are neighbours |
| HeapNodes.AllFreed | bdk/mem/heap.c:114-138 | with nothing live, one free node covers the whole extent |
| Heap.Arena.constructor | bdk/mem/heap.c:24-29 | an empty heap at the given address |
| Heap.HeaderWords | bdk/mem/heap.h:23-30 | use, size, previous and next are the first four words of a header |
| Heap.Arena.Find | bdk/mem/heap.c:59-98 | the walk stops at the first free node that is large enough, or at the last node |
| Heap.Arena.Take | bdk/mem/heap.c:66-88 | the free node is used, split if 128 bytes are left, with all links right and all live payloads untouched |
| Heap.Arena.Append | bdk/mem/heap.c:102-109 | a node is linked in behind the last one |
| Heap.Arena.Place | bdk/mem/heap.c:54-111 | in a heap that has been used, first fit or append, with the links right and no live payload changed |
| Heap.Arena.Malloc | bdk/mem/heap.c:32-112 | the list in memory becomes that of first fit or append, the address is that of the new node's payload, and no live payload changes |
| Heap.Arena.MergeBack | bdk/mem/heap.c:128-132 | one merge changes the size and the two links around the merged node, and nothing else |
| Heap.Arena.Defragment | bdk/mem/heap.c:118-136 | the loop over the links performs the pass, with no live payload changed |
| Heap.Arena.Free | bdk/mem/heap.c:114-138 | the node is freed and its neighbours merged; an address below the heap is ignored |
| Heap.Arena.Zalloc | bdk/mem/heap.c:162-167 | as malloc, with every word of the aligned size zero |
| Heap.Arena.Calloc | bdk/mem/heap.c:155-160 | as zalloc, for the product taken in 32 bits |
| Heap.CallocCoversExactly | bdk/mem/heap.c:155-160 | enough is handed out if and only if the product does not wrap around |
| Heap.CallocExample | bdk/mem/heap.c:155-160 | 2^16 elements of 2^16 bytes: the allocation succeeds with no byte |
| Heap.Arena.Monitor | bdk/mem/heap.c:175-204 | the total is the whole extent, the other numbers those of the used nodes |
| Heap.UsedIsLive | bdk/mem/heap.c:183-190 | the used nodes counted are the live ones, and all or none of them make up all or none of the extent |
| HeapRuns.StepKeepsGood | bdk/mem/heap.c:32-173 | each call, malloc, zalloc, calloc or free, keeps the layout and that callers hold exactly the live nodes, large enough |
| HeapRuns.RunKeepsGood | bdk/mem/heap.c:32-138 | and so does every run |
| HeapRuns.HeldApart | bdk/mem/heap.c:32-112 | what callers hold never overlaps and lies inside the heap |
| HeapRuns.AllGivenBack | bdk/mem/heap.c:114-138 | after any run that gives everything back the heap is unused or one free node |
| HeapRuns.Run | bdk/mem/heap.c:150-173 | the allocator itself follows the log, NULL freed or not, and no byte of a payload that stays live changes |
| Gf128.MulXCoefficients | bdk/sec/se.c:39-69 | each coefficient of the product by x modulo x^128 + x^7 + x^2 + x + 1 |
| Gf128.DoubleLeIsMulX | bdk/sec/se.c:55-69 | the little-endian doubling multiplies by x |
| Gf128.DoubleBeIsMulX | bdk/sec/se.c:39-53 | the big-endian doubling multiplies by x |
| GfMul.MulXBe | bdk/sec/se.c:39-53 | the byte loop with carry doubles in place, and so does what the little-endian doubling does to the reversed bytes |
| GfMul.MulXLe | bdk/sec/se.c:55-69 | the word loop with carry doubles in place |
| Gf128.FirstByte | bdk/sec/se.c:39-69 | the first byte weighs least in one order and most in the other |
| Xts.ThreePasses | bdk/sec/se.c:450-473 | exclusive or of all, cipher of all, exclusive or of all equals the block-by-block form of section 5.3 of IEEE Std 1619-2007 |
| Xts.DoubleIsMulX | bdk/sec/se.c:39-69 | the tweak of the next block is multiplied by x, in the byte order of either driver |
| Xts.XorBlockIsXor | bdk/sec/se.c:408-412 | whitening is the exclusive or of the numbers that the blocks spell |
| Xts.CryptInNumbers | bdk/sec/se.c:389-476 | block k is whitened with the first tweak multiplied by x^k, before and after the cipher |
| Xts.CryptRoundTrip | bdk/sec/se.c:389-476 | decryption undoes encryption for every key, tweak, length and byte order |
| Xts.CryptResumes | bdk/sec/se.c:426-476 | data can be processed in pieces, going on with the tweak that was left |
| Xts.CryptSlice | bdk/sec/se.c:440-442 | starting from the tweak of block 32 e gives that slice of the whole |
| XtsDrivers.XorInto | bdk/sec/se.c:408-409 | one block is whitened, also in place |
| XtsDrivers.SetSector | bdk/sec/se.c:397-401 | the loop spells the sector number |
| Xts.SectorNumber | bdk/sec/se.c:397-401 | most significant byte first, it is the sector number |
| XtsDrivers.Engine.CryptBlock | bdk/sec/se.c:408-413 | one block is whitened, ciphered and whitened again |
| XtsDrivers.Engine.XtsCryptSec | bdk/sec/se.c:389-424 | a sector is encrypted or decrypted block by block, block k under the enciphered sector number multiplied by x^k, also in place, and nothing else is written |
| XtsDrivers.Engine.XtsCryptSecNx | bdk/sec/se.c:426-476 | the same with the other byte order and the caller's tweak, made anew, moved on or continued, which ends as many multiplications on as there were blocks |
| XtsDrivers.Engine.CryptInTwo | bdk/sec/se.c:426-476 | two calls, the second continuing, do what one call on all the data does |
| XtsDrivers.Engine.CryptFrom | bdk/sec/se.c:440-442 | a call with tweak_exp e on the data from block 32 e on does what a call on the whole cluster does there |
| XtsDrivers.Engine.XtsCrypt | bdk/sec/se.c:478-488 | each sector is encrypted under its own number, taken modulo 2^64 |
| XtsDrivers.SectorsRoundTrip | bdk/sec/se.c:478-488 | decrypting all sectors restores every byte |
| XtsDrivers.Engine.ThereAndBack | bdk/sec/se.c:478-488 | the two calls, one after the other in place, leave what was there |
| Cmac.Engine.Start | bdk/sec/se.c:303-321 | one operation chains the blocks from the selected IV and leaves the last value in the updated IV and the hash register |
| Cmac.SubkeysAreMulX | bdk/sec/se.c:666-672 | the subkeys are the enciphered zero block multiplied by x once and twice |
| Cmac.PaddingBits | bdk/sec/se.c:692-696 | the partial block, the byte 0x80 and zeros |
| Cmac.ChainLast | bdk/sec/se.c:303-321 | each block is added to the chaining value and enciphered, in order |
| Cmac.Engine.MakeSubkey | bdk/sec/se.c:663-672 | multiplied by x once for whole blocks and twice otherwise, as section 2.3 of RFC 4493 has it |
| Cmac.Engine.ChainBlocks | bdk/sec/se.c:674-690 | the selected IV is the chaining value of all blocks before the last |
| Cmac.LastBlock | bdk/sec/se.c:692-700 | the last block is the message's, padded with 0x80 and zeros if partial |
| Cmac.CmacSplits | bdk/sec/se.c:683-690 | the standard's tag is that of the last block from the chaining value of the others |
| Cmac.Engine.Cmac128 | bdk/sec/se.c:657-714 | for every message of at least one byte the result is AES-CMAC of section 2.4 of RFC 4493, in numbers: last block, subkey for its length and chaining value, added and enciphered |
| Cmac.CmacInNumbers | bdk/sec/se.c:657-714 | the recursive form of the standard is that in numbers |
| Cmac.TagExactly | bdk/sec/se.c:657-714 | code and standard agree on a message if and only if it is not empty or the key's subkeys differ in exactly the top bit |
| Cmac.EmptyMessageExample | bdk/sec/se.c:692-700 | a cipher for which the empty message gets another tag |
| Calendar.DaysAfter | bdk/rtc/max77620-rtc.c:90-157 | counting back from the date n days on gives n |
| Calendar.FormulaCounts | bdk/rtc/max77620-rtc.c:142-151 | the closed form counts days as stepping does, for every date from 1970 on, with its leap years |
| Calendar.DateOfDays | bdk/rtc/max77620-rtc.c:102-123 | the closed form gives the date that stepping gives, for every day of 32-bit time |
| Rtc.SecondsAt | bdk/rtc/max77620-rtc.c:90-157 | every count of seconds is that of the time it stands for |
| Rtc.AtSeconds | bdk/rtc/max77620-rtc.c:90-157 | every valid time is restored from its seconds |
| Rtc.EpochToDate | bdk/rtc/max77620-rtc.c:90-130 | all fields are those of the day-by-day calendar for every 32-bit epoch, with no intermediate overflow |
| Rtc.DateToEpoch | bdk/rtc/max77620-rtc.c:132-157 | the result is the true number of seconds modulo 2^32 for every valid time |
| Rtc.RoundTripExactly | bdk/rtc/max77620-rtc.c:90-157 | a time survives both conversions if and only if it is not after 2106-02-07 06:28:15 |
| Rtc.AdjustTime | bdk/rtc/max77620-rtc.c:159-167 | a nonzero offset moves the time by that many seconds modulo 2^32 |
| Rtc.OffsetExactly | bdk/rtc/max77620-rtc.c:159-167 | that is the moment meant if and only if it lies within 32-bit time |
| Pllc4.Clocks.EnablePllc4 | bdk/soc/clock.c:507-533 | bit and flag are set and the PLL runs; it is reprogrammed only while no running clock needs it |
| Pllc4.Clocks.DisablePllc4 | bdk/soc/clock.c:535-552 | the last bit out turns the PLL off, at a moment when no running clock needs it |
| Pllc4.Clocks.ConfigHost | bdk/soc/clock.c:722-823 | source and rate per controller; the source is switched only while the clock is off, an unknown controller is refused |
| Pllc4.Clocks.ConfigClockSource | bdk/soc/clock.c:825-841 | the same without switching the clock on or off; a rate already set changes nothing |
| Pllc4.Clocks.SdmmcEnable | bdk/soc/clock.c:921-935 | rate, source, divisor and clock are set, bit and PLL too if the rate needs them, nothing else; the others step on as if alone; the wait is 100 cycles rounded up |
| Pllc4.Clocks.SdmmcDisable | bdk/soc/clock.c:937-943 | clock and bit are gone; with no other bit left the mask is zero and the PLL off, otherwise both stay |
| Pllc4.Sources | bdk/soc/clock.c:731-792 | exactly 100, 200 and 400 MHz need the PLL, each from its output |
| Pllc4.RealClockIs | bdk/soc/clock.c:731-792 | the clock reported is that of the source divided, rounded up to kHz, never above what was asked for |
| Pllc4.SupportedYieldsClock | bdk/soc/clock.c:731-792 | the known rates are those with a clock |
| Pllc4.DisabledNoClaim | bdk/soc/clock.c:937-943 | from a disabling to the next rate that needs the PLL a controller has no claim on it |
| Pllc4.EnabledClaim | bdk/soc/clock.c:921-935 | from an enabling at such a rate to the next disabling it has one |
| Pllc4.Clocks.Run | bdk/soc/clock.c:825-943 | over any run a running clock from the PLL has its bit set and the PLL on, the flag tracks the PLL, and it runs exactly while some controller claims it |
| Pllc4.OnMeansHolds | bdk/soc/clock.c:825-943 | in any run of a single controller, on at a PLL rate implies a claim |
| Selector.LoopEndsExactly | ums-loader/main.c:544-546 | the inner loop ends if and only if the bytes below the one selected are within the limit |
| Selector.Press | ums-loader/main.c:541-553 | one press for every number and limit: the result, or never, exactly if the loop never ends |
| Selector.NeverExample | ums-loader/main.c:541-546 | 20 with the limit 10, and down on the second byte never ends |
| Selector.OnTheCircle | ums-loader/main.c:541-553 | within the limit every press ends and moves the byte one step on the circle of values within it |
| Selector.PressAdds | ums-loader/main.c:542-548 | inside the range up adds one to the byte and down takes one off |
| Selector.OneByteSession | ums-loader/main.c:528-535 | presses in part i of a session change only the byte of weight 256^(3 - i) |
| Selector.UpDown | ums-loader/main.c:541-553 | up and down cancel, in either order, at the limits too |
| Selector.PressesUndone | ums-loader/main.c:535-559 | opposite presses in opposite order restore the number |
| Selector.Select | ums-loader/main.c:526-562 | a whole session, from any start, is that of its presses; from within the limit it ends within it |
| Selector.SelectedWithin | ums-loader/main.c:526-562 | within the limit no session ever hangs |
| SubStorage.Config.PartUpdate | ums-loader/main.c:392-411 | the window becomes the partition, cut at the end of the device, and is inside if and only if it begins inside |
| SubStorage.Config.InsideExactly | ums-loader/main.c:371-380 | in every state the window is inside if and only if it begins inside |
| SubStorage.Config.ModeUpdate | ums-loader/main.c:419-434 | partition mode is left if there are no partitions, and the enabled entries are those that make sense |
| SubStorage.Config.constructor | ums-loader/main.c:645-706 | the editor starts on a device that works, with the window of its first partition, or an empty window at 0 if there is none |
| SubStorage.Config.DeviceToggle | ums-loader/main.c:445-484 | the next device is loaded, read-only unless it is the SD card, and its window set |
| SubStorage.DeviceCycle | ums-loader/main.c:450-467 | with both storages working all four devices come in turn |
| SubStorage.Config.RoToggle | ums-loader/main.c:637-643 | only the read-only flag changes |
| SubStorage.Config.ModeToggle | ums-loader/main.c:487-502 | the mode changes and the window follows |
| SubStorage.Config.PartToggle | ums-loader/main.c:504-510 | the next partition of those there are; there is one whenever the entry is enabled |
| SubStorage.Config.OffsetEdit | ums-loader/main.c:564-571 | the offset is the session's result and the size is cut to what is left; it hangs exactly if the selector does, never from inside |
| SubStorage.Config.SizeEdit | ums-loader/main.c:574-581 | the size is the session's result within what is left, inside the device or not, and never hangs |
| SubStorage.Config.Handle | ums-loader/main.c:371-581 | one event on an enabled entry, a disabled one doing nothing; from inside, the window leaves exactly when a partition is selected that begins behind the end |
| SubStorage.Config.Run | ums-loader/main.c:371-581 | over any events and loads, inside or not, the editor hangs only in the offset editor with the window outside; without a partition behind the end it stays inside and never hangs |
| SubStorage.Edit | ums-loader/main.c:371-706 | the same from the editor's own start, whatever table it finds |
| SubStorage.OutsideExample | ums-loader/main.c:378 | a partition behind the end of its device, and the window is outside at once |
| SubStorage.HangExample | ums-loader/main.c:544-571 | from there, the other mode and one press down hang the editor |
| JoyCrc.JcCrc | bdk/input/joycon.c:336-351 | the two loops compute the checksum of the specification |
| JoyCrc.CrcOfOne | bdk/input/joycon.c:336-351 | the checksum of the byte 1 is 0x8D, the polynomial x^8 + x^7 + x^3 + x^2 + 1 |
| JoyCrc.CrcIsBitwise | bdk/input/joycon.c:336-351 | which is that of the bits fed one by one |
| JoyCrc.CrcDetectsBurst | bdk/input/joycon.c:336-351 | damage within eight bits in a row changes the checksum, for any length, place and start value |
| JoyCrc.AcceptedMeansZero | bdk/input/joycon.c:755-756 | a header is accepted if and only if the checksum over all eight bytes is zero |
| JoyCrc.DamagedHeaderDropped | bdk/input/joycon.c:753-756 | a good header with such damage, its checksum included, is dropped |
| JoyCrc.OneBadByteDropped | bdk/input/joycon.c:753-756 | a good header with one wrong byte is dropped |

## Left out

- Smmu.Tables.InitDomain: does not model the memory controller's registers (address space identifiers, page table base, enable bits); a domain is its directory page.
- Smmu.Tables.FlushAll: the page table cache and the register reads that order the writes are not modelled; lookups happen between calls, not during them, and the translation cache is keyed by the directory page, not by address space identifier.
- Smmu.Tables.Map: requires the range to end by 2^32, room for the tables that are missing, and that a write gone astray through a 4 MB entry hits none of the pages in use (`Smmu.Tables.WritePage` has the write without that); addresses need not be aligned, and the physical address does not wrap at 2^64.
- Smmu.Tables.ResetHeap: a domain used after a reset is not modelled; the caller has to give all domains up. The start of the page heap is a parameter, because its definition is not part of this model.
- smmu_enable, smmu_deinit_domain and smmu_domain_bypass: register writes and the payload for another processor.
- PatchHash.PatchHashMulti: requires one to 512 words, which the 16-bit columns need; the chain never has more than 79, and never none.
- PatchChain.ReadIpatch: the fuse array is a sequence that reading does not change; the sense procedure is not modelled, and callbacks are recorded, not executed.
- PatchChain.CheckPatchedRcm: requires that the chain as stored, up to the patch that is found, stays in the array; otherwise the code reads outside it, and what that yields is not decided here.
- fuse_read_evp_thunk: walks the same chain and would add nothing but the thunk copying.
- Heap.Arena.Malloc: requires that the aligned size and the new top fit the address space; the code checks neither. The build without defragmentation is left out.
- Heap.Arena.Free: requires an address that was handed out and not yet given back, or one below the heap such as NULL, because the code trusts its caller.
- HeapRuns.StepKeepsGood: what calloc is said to ask for is the product in 32 bits (`Heap.CallocCoversExactly` says when that is all of it); what callers write into their own payloads between calls is not part of a run.
- Heap.Arena.Monitor: requires a heap that has been used, since the code reads the first node unconditionally; printing is left out.
- Heap.Arena.Clear: words at aligned addresses stand for memory, so single bytes within a word are not modelled; `_heap.last` is kept as written but nothing is stated about it.
- XtsDrivers.Engine.CryptEcb: AES is any function per key slot with its inverse, the engine works in place and may fail at any time; caches, linked lists of the engine and its registers are not modelled. After a failure nothing is said about the contents of the output.
- XtsDrivers.XorInto: the four 32-bit exclusive ors of `se_aes_xts_crypt_sec_nx` are done as sixteen of bytes.
- XtsDrivers.Engine.XtsCryptSecNx: requires at least one block, because the engine's block count would wrap, and a tweak apart from the data; sizes are multiples of 16 as the code assumes.
- XtsDrivers.Engine.XtsCrypt: the byte offset of a sector does not wrap at 2^32.
- Cmac.Engine.CryptHash: modelled for one block encrypted into itself, the only way the tag computation uses it; with more blocks the engine's output to memory is not decided by the code.
- Cmac.Engine.Cmac128: requires at most 2^32 - 16 bytes, beyond which the block count would wrap.
- SHA, RSA, RNG, CTR and CBC of the security engine: the hardware does the work.
- Rtc.DateToEpoch: nothing is stated for fields that are no valid date from 1970 on; reading the clock over I2C is a parameter, and the weekday is never computed.
- Pllc4.Clocks.ConfigHost: the PLL's own registers are one bit, its lock is immediate, and resets and the legacy timeout clock are left out.
- Pllc4.Clocks.SdmmcEnable: requires a rate that the table knows, because the code divides by its clock.
- Selector.Select: a button is one of the two volume buttons; with another one the code would use an uninitialised value. A loop that never ends is answered, after a test that the code does not have.
- SubStorage.Config.Run: how the partition table is parsed is left out, what it yields is a parameter; a hanging editor ends the run. That the last device leads to the SD card even if that failed follows the code (`ums-loader/main.c:461`).
- SubStorage.Config: starting the USB gadget, drawing and the mount menu are left out.
- The rest of the Joy-Con protocol, sticks and buttons: unpacking of fields.
- Memory training, display, power and pin setup: register writes from tables.
