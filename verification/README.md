# Verified model of the boot loader's library code

A Dafny model of the parts of this boot loader that keep data structures in place in
memory, with proofs of what they keep. `dafny verify dfyconfig.toml` checks all of it.

* **The allocator** (`DlHeap.dfy`, `DlLists.dfy`, `DlSteps.dfy`, `DlMalloc.dfy`): dlmalloc over
  an array of words addressed by byte, with its bins in low memory as in `av_`, the bitmap, the
  last remainder, `top`, and the `sbrk` of the wrapper with its pool. `Heap` is the view the
  proofs need: the set of chunk starts, one list per bin, and the free chunks that an operation
  holds in its hands. `Ok` says that chunks tile the arena, status bits and footers agree, no two
  free chunks touch, the bins are circular lists in order of size, and every free chunk is in the
  bin of its size or is the last remainder. Every public method keeps it.
* **Flattened device trees** (`FdtFormat.dfy` bytes and tokens, `FdtTree.dfy` trees and paths,
  `FdtDoc.dfy` tokens as trees, `FdtWalk.dfy` and `FdtPath.dfy` positions and path text,
  `FdtBlob.dfy` blocks in a buffer, `Fdt.dfy` libfdt itself, `FdtSw.dfy` the sequential writer,
  `FdtUse.dfy` what holds across two calls).
  `Reads` ties the tokens and strings of a blob to the one forest they spell out. The methods work
  on the bytes; their contracts say what happens to the forest.
* **qsort** (`Qsort.dfy`), in place, for any total preorder.
* **Setting secure memory aside** (`TzRes.dfy`), the availability check and the carving of banks.
* **Division** (`Division.dfy`) and **formatted printing** (`Printf.dfy`).

Where a property turned out not to hold for every input, the model keeps what the code does
and states exactly when it holds: `TagProgress`, `Request2SizeFits`, `TrimKeepsExactly`,
`PadFitsExactly`, `ExtendTop` with `ArenaAccounted`, `DropPropGone`, `PathRoundTrip`, `GetPath`
(behind the root's end), `AddSubnode` (parent -1), `GrantsExactly` (writers in 40 to 47 bytes),
`AddReservemapEntry` (strings before tokens), `Writer.FindAddString` (names longer than the
buffer), `PiecesExact`, `OverrunsExactly`, `LowSame`, `SignedDivMod`. Inputs at which some of
them fail: `TagStandsStill`, `TrimExtraWraps`, `PadWraps`, `StumblesHere`, `BareRoot`,
`NodeInFront`, `CreatedSmall`, `TwiceOverruns`, `HighBankLost`.

## Model

| member | source | states |
|---|---|---|
| `DlHeap.BinIndexMonotone` | libutils/isoc/dlmalloc.c:757-763 | The bin of a larger chunk is never before the bin of a smaller one, over all six spacings of `bin_index`; every size has a bin from 0 to 126. |
| `DlHeap.BinBegins` | libutils/isoc/dlmalloc.c:755-785 | Where each of the 127 bins begins: 64 bins 8 bytes apart, 32 of 64, 16 of 512, then 4096, 32768 and 262144. |
| `DlHeap.RetileOk` | libutils/isoc/dlmalloc.c:591-656 | If a stretch between two chunk borders that holds no binned chunk becomes one or two chunks with right headers, status bits and footers, then tiling, status bits, footers, alignment, all bins and the placement of every free chunk hold again. |
| `DlHeap.RetopOk` | libutils/isoc/dlmalloc.c:505-520 | The same where the stretch reaches the end of the arena: a new `top` starts in it, and everything before is kept. |
| `DlLists.UnlinkRing` | libutils/isoc/dlmalloc.c:1015-1021 | The two stores of `unlink` leave the circular list of the other nodes, links right in both directions. |
| `DlLists.InsertRing` | libutils/isoc/dlmalloc.c:984-1010 | The stores that link a chunk in leave the circular list with that chunk at that place. |
| `DlLists.UnlinkOk` | libutils/isoc/dlmalloc.c:1015-1021 | Taking a chunk out of any bin keeps every heap invariant; the other bins, all headers and all user words are as before, and the chunk counts as detached. |
| `DlLists.InsertOk` | libutils/isoc/dlmalloc.c:984-1010 | Putting a detached free chunk at the place of its size in the bin of its size keeps every heap invariant. |
| `DlLists.PrevIsFree` | libutils/isoc/dlmalloc.c:595-596 | A clear PREV_INUSE bit means that the chunk before is free, ends here and has its size in the footer, so `prev_chunk` finds it. |
| `DlLists.FindBin` | libutils/isoc/dlmalloc.c:757-763 | A free chunk that is not detached is a member of some bin, at one place of it. |
| `DlSteps.HandOk` | libutils/isoc/dlmalloc.c:1391-1397 | A detached free chunk handed out whole, or split with a detached rest, keeps the heap invariants; the live blocks are the old ones and the new one, and none of their user words change. |
| `DlSteps.RegionOk` | libutils/isoc/dlmalloc.c:1645-1674 | Freeing, splitting or growing inside a region of chunks around some blocks: the invariants hold again, and the live blocks are the old ones without those and with the new one if there is one. |
| `DlSteps.EndOk` | libutils/isoc/dlmalloc.c:1628-1643 | The same for a region that ends at the end of the arena and becomes `top`. |
| `DlSteps.TilingExact` | libutils/isoc/dlmalloc.c:498-520 | Following the sizes from the first chunk meets every chunk exactly once and ends at `top`; the sizes of all chunks and of `top` sum to the arena. |
| `DlSteps.BlocksApart` | libutils/isoc/dlmalloc.c:850-957 | Two live blocks never share a user word, and each is 8-aligned and inside the arena. |
| `DlMalloc.Request2SizeFits` | libutils/isoc/dlmalloc.c:564-567 | For requests below 2^31, the padded size leaves room for the request and its overhead exactly when the request is below 2^31 - 11, and is then the least multiple of 8 from 16 on that does; from there on the padding wraps to the minimum size. |
| `DlMalloc.TrimExtraBound` | libutils/isoc/dlmalloc.c:2159-2209 | For a pad below 2^31 the amount that `malloc_trim` releases is whole pages, and it leaves more than pad + MINSIZE or asks for more than `sbrk` can give back. |
| `DlMalloc.TrimExtraWraps` | libutils/isoc/dlmalloc.c:2159-2209 | A concrete pad near 2^32 for which all 4096 bytes of `top` would be released. |
| `DlMalloc.TrimKeepsExactly` | libutils/isoc/dlmalloc.c:2159-2209 | For every 32-bit pad: whatever `sbrk` takes back leaves `top` larger than the pad plus MINSIZE exactly when the pad is below 2^31, or the wrapped amount is less than a page or more than the arena. |
| `DlMalloc.TrimExact` | libutils/isoc/dlmalloc.c:2159-2209 | For every safe pad: there is something to release exactly when `top` has more than a page above pad + MINSIZE, and what is kept above that is a page or less. |
| `DlMalloc.PadFitsExactly` | libutils/isoc/dlmalloc.c:1927-2027 | For every power-of-two alignment: the padded request of `memalign` is refused or served in full exactly when it does not wrap, a condition on alignment and size alone. |
| `DlMalloc.UserWriteOk` | libutils/isoc/dlmalloc.c:430-495 | Whatever a caller writes into the user words of a live block, every heap invariant still holds, and so do all blocks. |
| `DlMalloc.BlockCompare` | libutils/isoc/dlmalloc.c:1460-1460 | `block <= binblocks` as numbers means that a bit at or above that block is set. |
| `DlMalloc.NothingFits` | libutils/isoc/dlmalloc.c:1543-1559 | When the scans found nothing, no free chunk of the whole arena and not `top` either can serve the request. |
| `DlMalloc.FoundBest` | libutils/isoc/dlmalloc.c:1474-1518 | The first chunk that fits, met from the small end of the first bin that has one, is the smallest binned chunk that fits. |
| `DlMalloc.NoChunksOk` | libutils/isoc/dlmalloc.c:706-745 | An arena of zero words in which every bin head points at itself satisfies every heap invariant, with no chunk and no live block. |
| `DlMalloc.NeverStumbles` | libutils/isoc/dlmalloc.c:1181-1287 | From an 8-byte boundary, in a pool that ends at a page boundary, the second `sbrk` of the first extension never fails, whatever the request. |
| `DlMalloc.StumblesHere` | libutils/isoc/dlmalloc.c:1181-1287 | A pool of 2000 bytes and the smallest request for which it fails. |
| `DlMalloc.PadWraps` | libutils/isoc/dlmalloc.c:1960-1966 | Alignment 2^31 and 2^31 - 12 bytes: the padded request comes to 8 bytes. |
| `DlMalloc.Malloc.constructor` | libutils/isoc/malloc_wrapper.c:471-484 | After `malloc_init` on a pool anywhere in 32-bit memory the allocator is in order, with no block: every invariant that the methods ask for and keep holds at the start. |
| `DlMalloc.Malloc.Unlink` | libutils/isoc/dlmalloc.c:1015-1021 | The chunk leaves its list; every invariant holds and no live block changes. |
| `DlMalloc.Malloc.Frontlink` | libutils/isoc/dlmalloc.c:984-1010 | The chunk is put in the bin of its size, ahead of equal ones and behind larger ones, and the block bit is marked; every invariant holds. |
| `DlMalloc.Malloc.LinkLastRemainder` | libutils/isoc/dlmalloc.c:1025-1029 | The chunk becomes the one chunk of the last-remainder bin. |
| `DlMalloc.Malloc.ExactSmall` | libutils/isoc/dlmalloc.c:1378-1399 | The chunk found fits with less than MINSIZE to spare; if none is found, no chunk in the bins passed fits and every chunk in later bins does. |
| `DlMalloc.Malloc.ExactLarge` | libutils/isoc/dlmalloc.c:1401-1424 | The same for larger requests, from the smallest chunk of the bin on. |
| `DlMalloc.Malloc.UseRemainder` | libutils/isoc/dlmalloc.c:1426-1453 | The last remainder is split, given out or put in its bin; a block given out is new and all others are untouched. |
| `DlMalloc.Malloc.ScanBlocks` | libutils/isoc/dlmalloc.c:1455-1541 | The scan through the bitmap ends; it returns the smallest binned chunk that fits, or null only if none fits, and it keeps the bitmap covering every non-empty bin. |
| `DlMalloc.Malloc.ClearBlock` | libutils/isoc/dlmalloc.c:1520-1529 | The bit of a block is cleared exactly when all its four bins are empty. |
| `DlMalloc.Malloc.NextMarked` | libutils/isoc/dlmalloc.c:1531-1537 | The walk to the next marked block stays in range and passes empty bins only. |
| `DlMalloc.Malloc.Sbrk` | libutils/isoc/malloc_wrapper.c:448-467 | Fails exactly when the new break leaves the pool; otherwise returns the old break, and released bytes are zero. The pool may lie anywhere below the last two pages of 32-bit memory. |
| `DlMalloc.ExtendSizeIs` | libutils/isoc/dlmalloc.c:1199-1206 | What is asked from `sbrk`: the bytes of the block and a smallest chunk, in the least number of whole pages after the first time. |
| `DlMalloc.Malloc.ExtendTop` | libutils/isoc/dlmalloc.c:1181-1287 | `top` grows by exactly those bytes if the pool has them, or is made at the first 8-byte boundary with them and up to the next page boundary; every chunk and block is kept. If `top` is still too small, the pool is nearly used up. The accounting is lost exactly in a first extension that gets its bytes but not those that reach the page boundary. |
| `DlMalloc.Malloc.Malloc` | libutils/isoc/dlmalloc.c:1350-1568 | A null result changes no block, and for a request below 2^31 means that no free chunk nor `top` is large enough and the pool is nearly used up. A non-null result is 8-aligned, a new block of at least the padded request and less than MINSIZE more, disjoint from all live blocks, whose words are untouched. As long as a binned chunk fits, the request is served and `top` and the break stay. |
| `DlMalloc.GrantedServes` | libutils/isoc/dlmalloc.c:1350-1568 | Such a block has room for the bytes asked for, and every word of every other block is as it was. |
| `DlMalloc.Malloc.Trim` | libutils/isoc/dlmalloc.c:2159-2209 | For every pad that is safe: memory is released exactly when the pad is below 2^31 and `top` has more than a page above pad + MINSIZE; whole pages go back, `top` keeps more than pad + MINSIZE and at most a page beyond it, and no block changes. |
| `DlMalloc.Malloc.Free` | libutils/isoc/dlmalloc.c:1592-1674 | The live blocks are the old ones without this one, their words untouched; all invariants hold, so the block is merged with both free neighbours or with `top`, and binned or kept as last remainder. If it borders `top`, `top` begins where it or the free chunk before it began, and is trimmed to a page or less exactly when it reaches 131072 bytes; otherwise `top` and the break stay. |
| `DlMalloc.Malloc.Expand` | libutils/isoc/dlmalloc.c:1802-1865 | Growing into the next chunk, the previous one or both keeps the first bytes of the block, even where the copy overlaps itself, and touches no other block. |
| `DlMalloc.Malloc.ExpandTop` | libutils/isoc/dlmalloc.c:1789-1840 | The same into `top`, with or without the chunk before. |
| `DlMalloc.Malloc.Reallocate` | libutils/isoc/dlmalloc.c:1868-1888 | With no room around the block: malloc, copy and free, or join with the new neighbour; contents kept up to the smaller size, other blocks untouched. |
| `DlMalloc.Malloc.Realloc` | libutils/isoc/dlmalloc.c:1712-1906 | A null result leaves every block as it was; otherwise the block now has at least the padded size, its first min(old, new) bytes are kept, and no other block changes. It stays in place whenever it has the bytes or the free chunk or `top` behind it has the rest, and moves only into the free chunk in front when that helps. |
| `DlMalloc.RegrownServes` | libutils/isoc/dlmalloc.c:1712-1906 | Such a block has room for the bytes asked for and holds, word by word, what the old one held. |
| `DlMalloc.Malloc.Memalign` | libutils/isoc/dlmalloc.c:1927-2027 | A non-null result is a multiple of the alignment and a new block of the size asked; the lead and the rest are given back, and other blocks are untouched. |
| `DlMalloc.Malloc.Calloc` | libutils/isoc/dlmalloc.c:2068-2114 | A non-null result has every user word zero, although the part from freshly extended `top` is not cleared. A count of 2^31 or more is noticed only after malloc: the block it got is lost. |
| `DlMalloc.Malloc.ArenaAccounted` | libutils/isoc/dlmalloc.c:1181-1287 | The sizes of all chunks and of `top`, with the alignment bytes in front, sum to `sbrked_mem` exactly unless a first extension has stumbled, which `ExtendTop` ties to the break, the request and the end of the pool, and `NeverStumbles` rules out for a pool from an 8-byte to a page boundary. |
| `FdtFormat.TagAtToken` | libfdt/fdt.c:93-141 | On a structure block made of tokens, `fdt_next_tag` reads each token and steps to the next one. |
| `FdtFormat.Get32Bytes` | libfdt/include/libfdt_env.h:73-74 | The byte at the lowest address of a word is the most significant one, and so on. |
| `FdtFormat.Get32Order` | libfdt/include/libfdt_env.h:73-74 | Words compare as numbers as their four bytes compare in order. |
| `FdtFormat.Put32Bytes` | libfdt/include/libfdt_env.h:71-74 | The four bytes written for a number are its base-256 digits, the most significant first. |
| `FdtFormat.TagCases` | libfdt/fdt.c:93-141 | Every answer of `fdt_next_tag` on any bytes but for begins: TRUNCATED where no tag fits, BADSTRUCTURE for unknown tags and cut properties, otherwise the tag and the next word boundary. |
| `FdtFormat.TagNamed` | libfdt/fdt.c:108-113 | A begin leads to the word boundary behind the first NUL, and is BADSTRUCTURE if there is none. |
| `FdtFormat.TagProgress` | libfdt/fdt.c:93-141 | On any bytes: a step without error goes forward exactly unless it is a property of length 2^32 - 12, whose 32-bit sum comes back to its own start. |
| `FdtFormat.TagStandsStill` | libfdt/fdt.c:115-123 | The block that makes it stand still. |
| `FdtFormat.PropFields` | libfdt/fdt_ro.c:239-258 | Length, name offset and value of a property stand at their fixed places behind its tag. |
| `FdtTree.ReplaceParts` | libfdt/fdt_rw.c:380-392 | Replacing a node by any nodes changes its own stretch of the item sequence and nothing before or behind it. |
| `FdtTree.ReplaceOthers` | libfdt/fdt_rw.c:274-332 | Setting a node changes no node beside or unrelated to it, and of its ancestors only the children. |
| `FdtTree.PutPropLookup` | libfdt/fdt_rw.c:274-317 | After a property is set, looking it up gives the new value, and every other name reads as before. |
| `FdtTree.DropPropGone` | libfdt/fdt_rw.c:319-332 | After a property is deleted its name is not found exactly when the node had only one property of that name. |
| `FdtTree.DropPropOther` | libfdt/fdt_rw.c:319-332 | Deleting a property changes how no other name reads. |
| `FdtDoc.ReadsOneForest` | libfdt/fdt.c:93-141 | The bytes of a block determine the forest: two forests read from the same tokens and strings are equal. |
| `FdtDoc.NodeSpan` | libfdt/fdt_wip.c:97-105 | The tokens from a node's begin to the first place where the nesting is back are exactly that node, and what follows is what follows it in the tree. |
| `FdtDoc.NodeCut` | libfdt/fdt_rw.c:380-392 | Cutting those tokens out, or overwriting them with NOPs, gives the forest without that node. |
| `FdtDoc.FindPropIndex` | libfdt/fdt_ro.c:260-282 | The search through the properties and NOPs behind a node's begin finds the node's first property of that name, or none when it has none. |
| `FdtDoc.SetAt` | libfdt/fdt_rw.c:205-221 | A property token given another value: the forest with that property set. |
| `FdtDoc.AddAt` | libfdt/fdt_rw.c:223-249 | A property token put in front: the forest with that property added. |
| `FdtDoc.KidAdded` | libfdt/fdt_rw.c:334-373 | A begin and an end put behind the properties: the forest with a new, empty first child. |
| `FdtDoc.StringsAdded` | libfdt/fdt_rw.c:150-170 | Strings added at the end of the strings block change nothing that is read. |
| `FdtWalk.InSpan` | libfdt/fdt_wip.c:97-105 | The nodes whose begins lie inside a node's tokens are exactly its descendants, one level of nesting for each step of the path. |
| `FdtWalk.KidOrder` | libfdt/fdt.c:201-227 | Children begin in the order of the tree. |
| `FdtWalk.NameAnswers` | libfdt/fdt_ro.c:58-76 | A name answers to itself and, if the one sought has no @, to what stands before its first @, and to nothing else. |
| `FdtWalk.UnitAnswers` | libfdt/fdt_ro.c:58-76 | So a name with any unit address answers to the name without it. |
| `FdtWalk.Ancestor` | libfdt/fdt_ro.c:409-443 | The last node met at a depth on the way to a node is the node's ancestor there. |
| `FdtBlob.StructEdited` | libfdt/fdt_rw.c:97-135 | A splice in the structure block, with what is written into it, gives a blob that holds the edited tokens, with reservations and strings as before and the blocks in order. |
| `FdtBlob.ValueAt` | libfdt/fdt_ro.c:284-302 | What the property search finds in the bytes is what looking the name up in the tree gives. |
| `FdtBlob.RsvEntryWords` | libfdt/include/libfdt_env.h:75-78 | A reservation entry is the upper and the lower word of the address, then those of the size. |
| `FdtBlob.HeaderAccepted` | libfdt/fdt.c:58-75 | Which headers are accepted, in numbers: magic, versions 16 and 17, and unfinished blobs with something in them; and the error for each of the others. |
| `FdtBlob.PackedLeast` | libfdt/fdt_rw.c:480-492 | No ordered blob with the same blocks is smaller than the packed one, and one of that size is packed. |
| `FdtBlob.PackedHeld` | libfdt/fdt_rw.c:394-414 | Packing the blocks, in place or elsewhere, loses no byte of any block as long as no block lands on one still to be moved. |
| `FdtBlob.NegativeRefused` | libfdt/fdt.c:79-91 | The unsigned test of `fdt_offset_ptr` refuses every negative offset. |
| `FdtBlob.NodeInFront` | libfdt/fdt_rw.c:354-371 | A node written eight bytes in front of the structure block leaves no begin where the block starts: the root is gone. |
| `LibFdt.NextTagIn` | libfdt/fdt.c:93-141 | On any structure block, tag and next offset or error as specified, 32-bit wrap included. |
| `LibFdt.FindStringIn` | libfdt/fdt.c:229-239 | The first place that spells the name, with its NUL, if any place does. |
| `LibFdt.PackBlocks` | libfdt/fdt_rw.c:394-414 | The new header describes reservations, tokens and strings at the new base, and nothing outside the packed blocks is written, if no move overwrites what a later one reads; the bytes after the three moves in any case. |
| `LibFdt.PackedInPlace` | libfdt/fdt_rw.c:480-492 | Packing an ordered blob in place keeps reservations, tokens and strings, and changes nothing if it was packed. |
| `LibFdt.OpenInto` | libfdt/fdt_rw.c:416-478 | For disjoint, equal or overlapping buffers and any order of blocks. A blob in order is refused exactly when the buffer is smaller than its total size; one out of order exactly when the buffer is smaller than 40 bytes, 16 for each reservation and the two other blocks, or when the buffers overlap and that does not fit behind the old blob either. On success the buffer holds the same reservations, tokens and strings in order; a failed call changes no byte. |
| `LibFdt.Fdt.constructor` | libfdt/fdt_sw.c:213-256 | A blob whose bytes hold reservations, tokens and strings in order, as `fdt_finish` and `fdt_open_into` leave it, can be read and edited. |
| `LibFdt.Fdt.NextTag` | libfdt/fdt.c:79-141 | As specified on the structure block, and the end of the tokens for every negative offset. |
| `LibFdt.Fdt.CheckNodeOffset` | libfdt/fdt.c:143-150 | The offset behind a node's begin, or BADOFFSET for anything else that is no word inside a token; there the word is taken for a tag. |
| `LibFdt.Fdt.NextNode` | libfdt/fdt.c:161-199 | The next node with its depth, the place where the depth falls below zero, or NOTFOUND at the end. |
| `LibFdt.Fdt.FirstSubnode` | libfdt/fdt.c:201-210 | The first child in the tree, or NOTFOUND when the node has none; for a negative offset the first root. |
| `LibFdt.Fdt.NextSubnode` | libfdt/fdt.c:212-227 | The next sibling in the tree, or NOTFOUND when there is none, as for every negative offset. |
| `LibFdt.Fdt.NodeEndOffset` | libfdt/fdt_wip.c:97-105 | The offset just past the matching end of the node; BADOFFSET for an offset that is no node; a negative offset as it is. |
| `LibFdt.Fdt.StringEq` | libfdt/fdt_ro.c:83-89 | True exactly when the string at that offset is the name. |
| `LibFdt.Fdt.NextProp` | libfdt/fdt_ro.c:108-130 | The next property of the node, skipping NOPs, or NOTFOUND. |
| `LibFdt.Fdt.GetProperty` | libfdt/fdt_ro.c:260-290 | Offset and length of the node's first property of that name, NOTFOUND or BADOFFSET. |
| `LibFdt.Fdt.GetProp` | libfdt/fdt_ro.c:292-321 | The bytes at the result are the value that the tree has for that name; NOTFOUND exactly when it has none. |
| `LibFdt.Fdt.RwCheckHeader` | libfdt/fdt_rw.c:70-83 | On any header: accepted exactly when it is complete, of version 17 or later and with its blocks in order; then the version is 17. An editable blob passes. |
| `LibFdt.Fdt.Splice` | libfdt/fdt_rw.c:97-108 | BADOFFSET or NOSPACE exactly when the stretch lies outside the data or the result would not fit; then nothing changes, and otherwise what follows is moved. |
| `LibFdt.Fdt.SpliceStruct` | libfdt/fdt_rw.c:123-135 | NOSPACE exactly when the result does not fit; sizes and offsets follow the move. |
| `LibFdt.Fdt.FindAddString` | libfdt/fdt_rw.c:150-170 | The name's offset, found or added; NOSPACE exactly when it is new and does not fit. What the blob reads as does not change. |
| `LibFdt.Fdt.ResizeProperty` | libfdt/fdt_rw.c:205-221 | The property keeps name and the common part of its value at the new length; every error leaves the bytes as they were. |
| `LibFdt.Fdt.AddProperty` | libfdt/fdt_rw.c:223-249 | A property of that name in front of the others; NOSPACE exactly when name and property do not both fit, and then the tree is as before even if the name was added. |
| `LibFdt.Fdt.SetName` | libfdt/fdt_rw.c:251-272 | The tree with that node renamed; NOSPACE exactly when the longer name does not fit. |
| `LibFdt.Fdt.SetProp` | libfdt/fdt_rw.c:274-290 | The tree with that property set on that node and nothing else changed, found at the same offset; NOSPACE exactly when it does not fit, and then the tree is as before. |
| `LibFdt.Fdt.AppendProp` | libfdt/fdt_rw.c:292-317 | The same with the old value followed by the new bytes. |
| `LibFdt.Fdt.DelProp` | libfdt/fdt_rw.c:319-332 | The tree without that property; NOTFOUND exactly when the node has none of that name. |
| `LibFdt.Fdt.AddSubnode` | libfdt/fdt_rw.c:334-378 | For every parent offset. EXISTS exactly when a child answers to the name, NOSPACE exactly when it does not fit; otherwise the tree with a new empty first child, which begins at the returned offset. A negative offset comes back as it is, except -1, which is taken for NOTFOUND: then, if there is room, and in no other case, the node is written in front of the structure block, the root is gone, and -8 comes back. |
| `LibFdt.Fdt.DelNode` | libfdt/fdt_rw.c:380-392 | The tree without exactly that subtree. |
| `LibFdt.Fdt.NopNode` | libfdt/fdt_wip.c:107-118 | The same tree as `fdt_del_node` gives, and no byte outside the node's own tokens is written. |
| `LibFdt.Fdt.NopProperty` | libfdt/fdt_wip.c:83-95 | The same tree as `fdt_delprop` gives. |
| `LibFdt.Fdt.SetPropInplace` | libfdt/fdt_wip.c:58-73 | The tree with the value replaced; NOSPACE exactly when the lengths differ. |
| `LibFdt.Fdt.SubnodeOffset` | libfdt/fdt_ro.c:132-149 | The first child that answers to the name, where a name without unit address answers to one with it; NOTFOUND when none does. |
| `FdtBlob.NameCompared` | libfdt/fdt_ro.c:58-76 | Comparing past the end of a name decides exactly whether the name answers. |
| `LibFdt.Fdt.SupernodeAtDepth` | libfdt/fdt_ro.c:409-443 | The ancestor at that depth and the node's own depth; NOTFOUND exactly for a depth it does not have. For any other offset BADOFFSET before the root's end, NOTFOUND at it, BADSTRUCTURE behind it. |
| `LibFdt.Fdt.NodeDepth` | libfdt/fdt_ro.c:445-454 | The length of the node's path less one; the same errors for an offset that is no node. |
| `LibFdt.Fdt.ParentOffset` | libfdt/fdt_ro.c:456-464 | The parent; NOTFOUND exactly for the root; the same errors for an offset that is no node. |
| `LibFdt.Fdt.NumMemRsv` | libfdt/fdt_ro.c:99-106 | The number of entries before the terminator. |
| `LibFdt.Fdt.AddMemRsv` | libfdt/fdt_rw.c:172-187 | The reservations with that entry before the terminator; an entry of size zero becomes the terminator. NOSPACE exactly when it does not fit. |
| `LibFdt.Fdt.DelMemRsv` | libfdt/fdt_rw.c:189-203 | The reservations without that entry; NOTFOUND exactly when there is none of that number. |
| `LibFdt.Fdt.Pack` | libfdt/fdt_rw.c:480-492 | Reservations, tokens, strings and tree as before, the total size minimal, and a packed blob unchanged. |
| `LibFdt.Fdt.PathOffset` | libfdt/fdt_ro.c:157-199 | The node that the names of an absolute path lead to, taking the first child that answers each time; NOTFOUND when a name leads nowhere. |
| `LibFdt.Fdt.GetPath` | libfdt/fdt_ro.c:357-407 | For every offset and buffer size. A node: NOSPACE exactly when the path and its NUL exceed the buffer, whatever other names were skipped on the way; otherwise the path's text with its NUL. No node: BADOFFSET before the root's end. At the root's end and behind it, and nowhere else, the names are dropped below the start of the buffer. |
| `FdtPath.FirstToAnswerIs` | libfdt/fdt_ro.c:132-149 | A step of the path is found again exactly when no earlier sibling answers to its name. |
| `FdtPath.ComponentsSplit` | libfdt/fdt_ro.c:178-197 | A path falls apart at every slash, wherever it stands. |
| `FdtPath.ComponentsOne` | libfdt/fdt_ro.c:178-197 | A path without a slash is one name, and an empty one none. |
| `FdtPath.PathTextGrows` | libfdt/fdt_ro.c:357-407 | The text of the root is a slash, and every other name stands behind a slash of its own. |
| `FdtPath.PathRoundTrip` | libfdt/fdt_ro.c:157-407 | Following the path text of a node leads back to the node exactly when on every step no earlier sibling answers to the name. |
| `FdtWalk.WalkOn` | libfdt/fdt.c:161-199 | From any node a walk that watches its depth comes to the next node or to the end of the root, at depth -1, behind which no node begins. |
| `FdtUse.SetThenGet` | libfdt/fdt_rw.c:274-290 | After `fdt_setprop`, `fdt_getprop` at the same offset gives the new value, and for every other name what it gave before. |
| `FdtUse.AppendThenGet` | libfdt/fdt_rw.c:292-317 | The same with the old value followed by the new bytes. |
| `FdtUse.DelThenGet` | libfdt/fdt_rw.c:319-332 | After `fdt_delprop`, every other name reads as before, and the one deleted is not found exactly when it had no second property. |
| `FdtUse.PathAndBack` | libfdt/fdt_ro.c:157-407 | `fdt_get_path` and then `fdt_path_offset` on the text it wrote: back at the same offset exactly when on every step no earlier sibling answers to the name. |
| `FdtUse.BareRoot` | libfdt/fdt_ro.c:357-407 | A blob with nothing but the root, which ends at offset 12: an input at which `fdt_get_path` leaves its buffer. |
| `FdtUse.FinishAndOpen` | libfdt/fdt_sw.c:213-256 | What `fdt_finish` leaves is a blob that can be read and edited, with the tree that was written. |
| `FdtUse.OpenTwice` | libfdt/fdt_rw.c:416-478 | What `fdt_open_into` left in a buffer opens again, in place and with the same size, always, and holds the same. |
| `FdtUse.LiteralBlock` | libfdt/fdt.c:93-141 | A structure block and its strings given byte by byte read as the tree of a root with one property and one child, and each tag is read at its place. |
| `FdtWriter.ItemsFront` | libfdt/fdt_sw.c:168-189 | Strings put in front of the table leave every name, counted from the end, as it was. |
| `FdtWriter.FinishedReads` | libfdt/fdt_sw.c:228-252 | When what was written is a forest, the rewritten tokens read back as that forest. |
| `FdtWriter.Settled` | libfdt/fdt_sw.c:222-231 | Moving the strings down behind the structure block loses nothing and puts the blocks in order, overlapping or not. |
| `FdtWriter.GrantsExactly` | libfdt/fdt_sw.c:73-86 | Over all sizes: the unsigned test of `_fdt_grab_space` grants exactly the requests that fit, if and only if block start and strings together do not exceed the buffer. |
| `FdtWriter.CreatedSmall` | libfdt/fdt_sw.c:88-108 | So right after `fdt_create` it is right for every request exactly from 48 bytes on; in 40 bytes it grants 8 that are not there. |
| `FdtWriter.Create` | libfdt/fdt_sw.c:88-108 | For every size: NOSPACE below the header's 40 bytes; otherwise a writer with nothing written, in order exactly from 48 bytes on. |
| `FdtWriter.Writer.GrabSpace` | libfdt/fdt_sw.c:73-86 | For a writer in order, the next bytes exactly when they are there. |
| `FdtWriter.Writer.AddReservemapEntry` | libfdt/fdt_sw.c:110-131 | The entry behind the others; BADSTATE once tokens were written, NOSPACE when the buffer has no room. The writer stays in order exactly unless strings were added before any token and the entry reaches into them. |
| `FdtWriter.Writer.FinishReservemap` | libfdt/fdt_sw.c:133-136 | The terminator behind the entries, under the same condition. |
| `FdtWriter.Writer.BeginNode` | libfdt/fdt_sw.c:138-152 | One more begin written, or NOSPACE exactly when it does not fit. |
| `FdtWriter.Writer.EndNode` | libfdt/fdt_sw.c:154-166 | One more end written, or NOSPACE exactly when it does not fit. |
| `FdtWriter.Writer.FindAddString` | libfdt/fdt_sw.c:168-189 | The name's place counted back from the end of the strings, shared as a suffix or added in front; 0 when it is new and does not fit, except that a name longer than the whole buffer less its strings passes the unsigned test, and its place lies below the buffer. |
| `FdtWriter.Writer.Property` | libfdt/fdt_sw.c:191-211 | One more property written with its name and value; otherwise NOSPACE exactly when name and property do not both fit, and then what was written is as before. A new name too long for the whole buffer is the one case that is not refused. |
| `FdtWriter.Writer.RewriteNames` | libfdt/fdt_sw.c:233-249 | Every property name offset counted from the start of the strings, all else unchanged. |
| `FdtWriter.Writer.Finish` | libfdt/fdt_sw.c:213-256 | NOSPACE exactly when the end tag does not fit. Otherwise an ordered, minimal blob with the reservations written, which reads as the forest that was written. |
| `Qsort.Med3IsMedian` | libutils/isoc/qsort.c:67-73 | The element chosen lies between the other two. |
| `Qsort.InsertionSort` | libutils/isoc/qsort.c:82-88 | A sorted rearrangement of the range, nothing else moved. |
| `Qsort.ChoosePivot` | libutils/isoc/qsort.c:89-101 | The middle for 7 elements, a median of first, middle and last up to 40, and from there on a median of three medians of three. |
| `Qsort.NintherRank` | libutils/isoc/qsort.c:89-101 | In the last case at least four of the nine elements looked at are not greater than the pivot, and at least four not less. |
| `Qsort.Partition` | libutils/isoc/qsort.c:101-128 | Equal, less, greater, equal regions around the pivot that fill the range, a rearrangement of it. |
| `Qsort.Crossed` | libutils/isoc/qsort.c:124-127 | Exchanging a greater element with a lesser one extends both regions. |
| `Qsort.Gather` | libutils/isoc/qsort.c:136-140 | After the two exchanges the range is less, equal, greater, with the equal block never empty. |
| `Qsort.ExchangeRearranges` | libutils/isoc/qsort.c:39-66 | Exchanging two disjoint stretches element by element rearranges any range around them. |
| `Qsort.Advance` | libutils/isoc/qsort.c:141-148 | With the less part sorted, everything up to the greater part is in its final place. |
| `Qsort.QSort` | libutils/isoc/qsort.c:74-150 | For any comparator that is a total preorder: a sorted rearrangement of the range and nothing else moved. Both further sorts are of strictly smaller ranges. |
| `TzRes.CheckAvail` | bios/main.c:210-286 | Ends, and answers yes exactly when the reserved range lies in the union of the banks, in any order and with overlaps. |
| `TzRes.EndIs` | bios/main.c:236-242 | The 64-bit sum is the end of a bank exactly when that is below 2^64; any other bank is taken to hold nothing. |
| `TzRes.Narrowed` | bios/main.c:238-271 | One bank narrows the range still to be found only by what it holds; if it narrows nothing, it does not hold the start. |
| `TzRes.PiecesExact` | bios/main.c:314-341 | The pieces written for a bank are the bank without the reserved range exactly when the bank reaches that range: one wholly below is dropped, one wholly above is widened. |
| `TzRes.PiecesElse` | bios/main.c:314-341 | A bank wholly below the range leaves nothing, and one wholly above is listed from the end of the range on. |
| `TzRes.CarvedExact` | bios/main.c:288-341 | When every bank meets the reserved range, the banks written are together the banks read without that range. |
| `TzRes.CarvedSize` | bios/main.c:321-331 | Disjoint banks need at most one entry more. |
| `TzRes.RoomEnough` | bios/main.c:380-388 | So the buffer with room for one more entry is large enough. |
| `TzRes.CarvedLess` | bios/main.c:288-348 | After a successful check, for disjoint banks that meet the range, the memory listed is less by exactly the reserved size. |
| `TzRes.OverrunsExactly` | bios/main.c:380-384 | For any banks, overlapping ones too, the buffer with room for one more entry is too small exactly when at least two more banks are split than dropped. |
| `TzRes.TwiceOverruns` | bios/main.c:321-331 | Two equal banks around the reserved range are such a case. |
| `TzRes.LowSame` | bios/main.c:192-208 | Banks written come back as they were exactly when all their values are below 2^32. |
| `TzRes.HighBankLost` | bios/main.c:192-208 | A bank at 4 GiB is written as one at 0. |
| `TzRes.GetPutVal` | bios/main.c:173-208 | A value written in either cell size reads back with its upper 32 bits gone. |
| `TzRes.OneCell` | bios/main.c:173-208 | One cell is four bytes, the most significant first, read and written. |
| `TzRes.TwoCells` | bios/main.c:173-190 | Two cells are one number, the upper half first. |
| `TzRes.TwoCellsWritten` | bios/main.c:192-208 | What is written in two cells has zeros in the upper one. |
| `TzRes.RegRead` | bios/main.c:173-190 | Three properties given byte by byte, with one or two cells each, list 1 GiB at 2 GiB. |
| `TzRes.Carve` | bios/main.c:288-348 | For any banks and any buffer: it runs over exactly when the carved banks need more room than there is; otherwise the property written lists exactly the carved banks, cut to 32 bits. |
| `Division.DivisionQr` | libutils/isoc/arch/arm32/aeabi_divmod.c:82-107 | At 32 and at 64 bits, for a non-zero divisor: numerator = q * divisor + r with 0 <= r < divisor. For zero, all ones for a remainder. |
| `Division.DividesOnce` | libutils/isoc/arch/arm32/aeabi_divmod.c:82-107 | There is only one such pair. |
| `Division.UnsignedDivMod` | libutils/isoc/arch/arm32/aeabi_ldivmod.c:84-100 | The same for the unsigned entry points. |
| `Division.SignedDivMod` | libutils/isoc/arch/arm32/aeabi_divmod.c:148-219 | Quotient truncated toward zero and remainder with the numerator's sign exactly unless the least number is divided by -1, where the quotient wraps to the numerator. |
| `Printf.DigitsParse` | libutils/isoc/snprintf.c:431-471 | The digits printed stand for the number. |
| `Printf.DigitsLength` | libutils/isoc/snprintf.c:431-471 | A number has at most k digits exactly when it is below the base to the power of k. |
| `Printf.OctalDigits` | libutils/isoc/snprintf.c:59-59 | 22 octal digits are enough for 64 bits and needed, so with the zero of '#' the 23-byte buffer is full. |
| `Printf.PutDigits` | libutils/isoc/snprintf.c:430-471 | The digits stand at the end of the buffer, with a byte left in front. |
| `Printf.FieldLength` | libutils/isoc/snprintf.c:499-506 | A field takes its width or its real size, whichever is more: what is added to the return value. |
| `Printf.PutField` | libutils/isoc/snprintf.c:499-544 | The field printed as specified, in as much of the buffer as is left, and its whole length counted. |
| `Printf.DirectiveReads` | libutils/isoc/snprintf.c:228-319 | A directive written out from flags, sign, width, precision and sizes is read as exactly that, and the format goes on behind its letter. |
| `Printf.StarsRead` | libutils/isoc/snprintf.c:250-273 | A directive with both numbers from the arguments is read with those, a negative width as a flag for the left side and a negative precision as none. |
| `Printf.PlusWins` | libutils/isoc/snprintf.c:238-266 | A plus wins over a blank, before or behind it. |
| `Printf.ReadDirective` | libutils/isoc/snprintf.c:228-319 | Flags, width, precision and sizes are read as the recursive reading gives them, which `DirectiveReads` ties to what was written. |
| `Printf.SelectedAgrees` | libutils/isoc/snprintf.c:153-170 | Signed and unsigned selection agree with the argument modulo the size that the flags ask for, and lie in its range. |
| `Printf.NumberPrints` | libutils/isoc/snprintf.c:320-471 | For every directive and every number conversion (d, i, D, o, O, u, U, x, X, p): the digits, with the zeros of the precision, stand for the magnitude of the number selected, and a minus is printed exactly when it is negative. |
| `Printf.NumberPrinted` | libutils/isoc/snprintf.c:320-544 | What any number directive prints where it stands in a format: sign or prefix, then digits that stand for the number selected, as many as it needs or the precision asks for, in a field of the width, with blanks in front or behind or zeros between. |
| `Printf.ZeroPadded` | libutils/isoc/snprintf.c:505-530 | A number padded with zeros still stands for its value behind its sign or prefix. |
| `Printf.StringPrints` | libutils/isoc/snprintf.c:376-399 | %s prints its argument, or (null), cut to the precision, in a field of the width, padded on the side the flags ask for. |
| `Printf.CharPrints` | libutils/isoc/snprintf.c:320-324 | %c prints one character, in the same way. |
| `Printf.OtherPrints` | libutils/isoc/snprintf.c:474-482 | A letter that is no conversion, the percent sign among them, prints itself and takes no argument. |
| `Printf.CountStored` | libutils/isoc/snprintf.c:337-352 | %n prints nothing and stores the count of what was printed before it. |
| `Printf.PlainPrints` | libutils/isoc/snprintf.c:221-224 | Every other character prints itself. |
| `Printf.EndsThere` | libutils/isoc/snprintf.c:474-476 | A percent sign at the end of the format ends the output. |
| `Printf.StoredCounts` | libutils/isoc/snprintf.c:337-352 | The counts that `%n` stores never fall and never exceed the return value. |
| `Printf.DecimalPrints` | libutils/isoc/snprintf.c:325-336 | A decimal conversion prints the magnitude of an int, and a minus exactly when it is negative. |
| `Printf.Kprintf` | libutils/isoc/snprintf.c:183-550 | The buffer holds as much of the whole output as fits, the result is the length of the whole output, and every `%n` stores the count so far. |
| `Printf.Vsnprintf` | libutils/isoc/snprintf.c:100-116 | The buffer ends up with the first min(size - 1, ret) characters of the whole output and a NUL behind them, and ret is the whole output's length. |

## Left out

The allocator:

- mmap, mremap, `mallopt`, `malloc_stats`, `mallinfo` and foreign `sbrk` callers are configured out or unreachable with the local `sbrk`; the checkers of the debug build are replaced by the proofs.
- `top` before the first extension is 0 instead of an overlay on bin 0.
- DlMalloc.Malloc.Trim: asks for a pad that is safe in the sense of `PadSafe`; `TrimKeepsExactly` shows that with any other pad `top` would become too small.
- DlMalloc.Malloc.Memalign: asks for an alignment that is a power of two and a padded request that does not wrap, which `PadFitsExactly` shows to be exactly the requests it can serve or refuse; `PadWraps` is one of the others.
- DlMalloc.Malloc.Malloc: the pool is smaller than 2^31 bytes less two pages, since `sbrk` takes a signed size, and ends two pages or more below 2^32.
- DlMalloc.Malloc.Realloc: the order in which one call stores to different words is not that of the code, and a last remainder that is kept is unlinked and linked again with the same result.
- DlMalloc.Malloc.Calloc: words hold 31 upper bits and the status bit; byte contents of user words are whole words, and copying and clearing go over every index of the byte-addressed memory.

libfdt:

- The 40 header bytes are the fields of `Header`, not bytes of the buffer; `boot_cpuid_phys` is not modelled.
- Version-16 blobs, whose structure size is found by walking, and alias paths are not modelled; offsets and sizes are below 2^31, and lengths passed by a caller are not so large that `int` overflows.
- Offsets that callers pass start a token or are refused by the checks; one inside a token is not covered.
- LibFdt.Fdt.NextNode: an offset inside a token is not covered, from which the walk would follow whatever bytes stand there.
- LibFdt.Fdt.GetPath: names have no slash; behind the root's end the call is not followed past the read in front of the buffer.
- LibFdt.Fdt.SupernodeAtDepth: asks for one root at offset 0, as do the depth, the parent and the path functions.
- Nodes have their properties before their children, as section 5.4 of the Devicetree Specification has it, and the strings block ends with a NUL.
- FdtWriter.Create: in buffers of 40 to 47 bytes the calls after it are not followed past the grant of `CreatedSmall`.
- FdtWriter.Writer.FindAddString: where the place lies below the buffer, the copy to it is not followed; name and buffer together are below 2^31 bytes.
- FdtWriter.Writer.Finish: asks that the reservation block was finished.
- Search by property value, phandle and compatible string, `fdt_get_phandle`, `fdt_stringlist_contains`, `fdt_move` on its own, and strings or values that alias the blob.

The rest:

- Qsort.QSort: positions count elements, and the number of elements times their size fits an `int`; the choice between swapping words and bytes is not modelled.
- TzRes.CheckAvail: asks that the property has whole entries, since the code would read behind it; the messages are left out, and CHECK is the result.
- TzRes.Carve: asks for whole entries; where a bank would be written past the buffer, which the code checks only at the end, it stops.
- Division.DivisionQr: division by zero is as the code leaves it; `__aeabi_imod` is left out, its power-of-two path is no modulus and its scan need not end.
- Printf.Kprintf: what `%n` stores is listed, not written through a pointer; arguments are a typed sequence, an argument of the wrong kind counts as zero or as a null string, and `int` does not overflow.
- Image copying, kernel entry, console, UART and bit operations, string routines and the debug layer of the allocator.
