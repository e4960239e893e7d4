# sqlight storage core in Dafny

This project models the storage core of sqlight, a small C++ database,
and proves properties of it. The core has three layers, each in its own
module:

- `BitMaps` (`bitwise.dfy`) models `include/bitwise.h`. `Ceil` is the
  32-bit `ceil(a, b)`. The class `BitMap` is a view over a region of a byte
  array, with bits numbered from the most significant bit of each byte, and
  its methods `Set`, `Reset`, `SetAll` and `ResetAll` update that array in
  place. The pure functions `BitAt`, `WithBitSet`, `WithBitReset`, `Filled`
  and `Scan` specify those updates. `Scan` is the behaviour of `nextBit`:
  the record layer calls it, but the header does not define it.
- `PagedFile` (`pagedfile.dfy`) models the buffer pool `PageManager` of
  `include/pagedFile.h`. It is a class over an array of frames. `used` is
  the LRU list (most recently used first), `index` is the hash map from
  page to frame, `free` is the min-heap of unused frames, and `disk` is the
  files behind the descriptors. Every method except the constructor
  and `IsInCache`, which are specified by the fields they set or read, is
  proved against a function on the `Pool` value (`Promote`, `Bind`,
  `Release`, `WriteBackFrame`, `WriteBackEach`, `ReleaseAll`, `FlushFd`,
  `Store`). The pool keeps the invariant `PoolInv`, which covers list,
  index, heap and clean-frame agreement with disk. For `getPage`, `flush`,
  `flushAll`, `flushAllByFd` and `closeFile` the lemmas prove that the
  logical content of every page (`Content`, or `Logical` on the class)
  stays the same; a caller's store (`Store`, `PageManager.Write`) changes
  exactly one page's content. `CloseFile` models the pool part
  of `FileManager::closeFile`.
- `RecordMgr` (`record.dfy`) models the record manager of
  `include/record.h`: `calSlotsPerPage`, the table and page headers, the
  slot operations, the iterator, and the header set-up of
  `creatTable`/`openTable`. The class `RecordManager` updates a table's
  logical pages in place. Each method is tied to a function on the `Table`
  value (`FreeSlot`, `Deleted`, `Written`, `Insert`, `NextFixed`), and the
  lemmas say what those functions promise: which slots are used, what bytes
  they hold, the lowest-free-slot order, in-order iteration, and that the
  table invariant `TableInv` is kept.

The formula of `calSlotsPerPage` does not always give the largest slot count
that fits: for 1-byte records it gives 3636 slots, and 3637 fit
(`RecordMgr.SlotsPerPageNotMaximal`). The model follows the formula.

## Model

| member | source | states |
|---|---|---|
| BitMaps.Wrap | include/bitwise.h:18-21 | The result is below 2^32 and equals the input when the input is already below 2^32 (32-bit `unsigned` arithmetic). |
| BitMaps.Ceil | include/bitwise.h:18-21 | `ceil(a, b)` as `(a + b - 1) / b`, with the sum reduced modulo 2^32 as 32-bit `unsigned` arithmetic does. `CeilIsLeast` and `CeilBytes` state what it gives. |
| BitMaps.CeilIsLeast | include/bitwise.h:15-21 | When `a + b - 1` does not wrap, `ceil(a, b)` is the least `q` with `q * b >= a`. |
| BitMaps.CeilBytes | include/record.h:70 | `ceil(n, 8)` is `(n + 7) / 8`, and its bytes hold at least `n` and fewer than `n + 8` bits. |
| BitMaps.WhichByte | include/bitwise.h:41-44 | `_whichByte(pos)`: byte `pos / 8` holds bit `pos`. |
| BitMaps.GetMask | include/bitwise.h:45-48 | `_getMask(pos)`: `0x80 >> pos % 8`. `MaskIsOneBit` and `MasksDiffer` state its properties. |
| BitMaps.MaskIsOneBit | include/bitwise.h:45-48 | `_getMask(pos)` selects exactly one bit, the `pos % 8`-th from the most significant. |
| BitMaps.OneBitLaws | include/bitwise.h:73-83 | Or-ing a one-bit mask sets that bit and and-ing its complement clears it. A byte that already agrees is unchanged. |
| BitMaps.Filled | include/bitwise.h:85-93 | `memset` leaves exactly `n` bytes. |
| BitMaps.Scan | include/record.h:76 | `nextBit(from, target)` returns the least index at or after `from` whose bit is `target`, or the bit length when there is none. Every bit it skips differs from `target`. |
| BitMaps.BitAt | include/bitwise.h:67-71 | Bit `pos` of a byte run is set when `_getMask(pos)` meets byte `_whichByte(pos)`. `BitAtIsMsbFirst` states its numbering. |
| BitMaps.WithBitSet | include/bitwise.h:73-77 | The bytes after `set(pos)`: the mask is or-ed into byte `pos / 8`. `BitAtWithBitSet` states what reads change. |
| BitMaps.WithBitReset | include/bitwise.h:79-83 | The bytes after `reset(pos)`: the inverted mask is and-ed into byte `pos / 8`. `BitAtWithBitReset` states what reads change. |
| BitMaps.BitAtIsMsbFirst | include/bitwise.h:67-71 | Bit `pos` is binary digit `7 - pos % 8` of byte `pos / 8`, so numbering starts at the most significant bit. |
| BitMaps.MasksDiffer | include/bitwise.h:41-48 | Two different positions in the same byte have disjoint masks. |
| BitMaps.BitAtWithBitSet | include/bitwise.h:73-77 | After `set(pos)`, bit `pos` reads true and every other bit reads as before. |
| BitMaps.BitAtWithBitReset | include/bitwise.h:79-83 | After `reset(pos)`, bit `pos` reads false and every other bit reads as before. |
| BitMaps.SetBits | include/bitwise.h:73-77 | `BitAtWithBitSet` for all bits at once. |
| BitMaps.ResetBits | include/bitwise.h:79-83 | `BitAtWithBitReset` for all bits at once. |
| BitMaps.SetResetIdempotent | include/bitwise.h:73-83 | Setting a bit twice equals setting it once; the same holds for resetting. |
| BitMaps.NoChangeWhenAlready | include/bitwise.h:73-83 | Setting a set bit, or resetting a clear bit, leaves every byte unchanged. |
| BitMaps.FilledBits | include/bitwise.h:85-93 | After `setAll` every bit reads true; after `resetAll` every bit reads false. |
| BitMaps.ScanStopsAt | include/record.h:232 | When every bit from `from` up to a set bit `p` is clear, the scan returns `p`. |
| BitMaps.ScanPasses | include/record.h:232 | When every bit from `from` up to `p` is clear, the scan returns `p` or later. |
| BitMaps.BitAtPrefix | include/record.h:231 | A bit of a shorter view is the same bit of the whole byte run. |
| BitMaps.ScanPrefix | include/record.h:231-232 | A scan over a prefix finds what a scan over the whole run finds, cut off at the prefix length. |
| BitMaps.BitMap.constructor | include/bitwise.h:57-60 | The view covers `size` bytes of `data` from the given offset. |
| BitMaps.BitMap.Bits | include/bitwise.h:57-60 | The view's bytes number `sizeInBytes`. |
| BitMaps.BitMap.GetLength | include/bitwise.h:99-102 | `getLength()` is eight times the view's byte count. |
| BitMaps.BitMap.Get | include/bitwise.h:67-71 | `get(pos)` is `BitAt` of the view's bytes. |
| BitMaps.BitMap.NextBit | include/record.h:232 | The result is the bit length, or the first index at or after `from` whose bit is `target`. No earlier bit from `from` on has `target`. |
| BitMaps.BitMap.Set | include/bitwise.h:73-77 | The view becomes `WithBitSet` of the old view. Only byte `offset + pos / 8` of the array changes, by or-ing in the mask. Bit `pos` is set; every other bit is as before. |
| BitMaps.BitMap.Reset | include/bitwise.h:79-83 | The view becomes `WithBitReset` of the old view. Only byte `offset + pos / 8` changes, by and-ing the inverted mask. Bit `pos` is clear; every other bit is as before. |
| BitMaps.BitMap.SetAll | include/bitwise.h:90-93 | Every byte of the view becomes 0xff and nothing outside the view changes, so every bit reads true. |
| BitMaps.BitMap.ResetAll | include/bitwise.h:85-88 | Every byte of the view becomes 0 and nothing outside the view changes, so every bit reads false. |
| PagedFile.ZeroPage | include/pagedFile.h:142-143 | The zero page has `PAGESIZE` bytes. |
| PagedFile.ByteOffsetAsWritten | include/pagedFile.h:76 | The offset as written: `pageNum * PAGESIZE` reduced modulo 2^32 (both operands are 32-bit `unsigned`). |
| PagedFile.ByteOffsetAsWrittenAliases | include/pagedFile.h:76 | With the 32-bit product `pageNum * PAGESIZE`, page 2^20 and page 0 seek to the same offset, 0. |
| PagedFile.ByteOffset | include/pagedFile.h:76-85 | The corrected offset `pageNum * PAGESIZE`, without wrap-around, used by the rest of the pool. |
| PagedFile.AddrOf | include/pagedFile.h:76-85 | Page `(fd, pageNum)` lives in file `fd` at offset `ByteOffset(pageNum)`. `AddrOfInjective` proves no two pages share it. |
| PagedFile.ByteOffsetsDisjoint | include/pagedFile.h:76-86 | If the offset is computed without wrap-around, different pages occupy disjoint byte ranges. |
| PagedFile.AddrOfInjective | include/pagedFile.h:76-86 | Different pages never share a disk address. |
| PagedFile.ReadFromDisk | include/pagedFile.h:83-87 | `read` returns 0 or `PAGESIZE` bytes, as the assertion at line 141 expects. The count matches the bytes returned. |
| PagedFile.DiskPage | include/pagedFile.h:140-143 | The bytes a frame gets on a miss: the page's disk bytes, or zeros when `read` returned 0. |
| PagedFile.WriteBack | include/pagedFile.h:72-81 | `writeToDisk` on one frame: a dirty frame is written at its page's address and cleared; a clean one changes nothing. |
| PagedFile.WriteBackIdempotent | include/pagedFile.h:72-81 | After `writeToDisk` the frame is clean, keeps its page and bytes, and a dirty frame's bytes are on disk. A second `writeToDisk` changes nothing. |
| PagedFile.DistinctCons | include/pagedFile.h:122 | Pushing a frame that is not listed onto a list without repeats keeps it without repeats. |
| PagedFile.DistinctTake | include/pagedFile.h:188-203 | A prefix of a list without repeats has no repeats. |
| PagedFile.Without | include/pagedFile.h:121 | Erasing `x` from the list leaves exactly the other entries. Erasing an absent frame changes nothing. |
| PagedFile.WithoutDistinct | include/pagedFile.h:121-122 | Erasing from a list without repeats keeps it without repeats and removes exactly one entry when present. |
| PagedFile.DistinctAt | include/pagedFile.h:198 | In a list without repeats, the entry at position `i` occurs neither before nor after `i`. |
| PagedFile.WithoutMiddle | include/pagedFile.h:198 | Erasing an entry that occurs once, between `a` and `b`, leaves `a` followed by `b`. |
| PagedFile.WithoutAt | include/pagedFile.h:198 | In a list without repeats, erasing the entry at position `i` cuts out exactly that position (the in-place `erase(i)`). |
| PagedFile.WithoutLast | include/pagedFile.h:129 | Erasing the LRU tail drops the last entry. |
| PagedFile.AllFrames | include/pagedFile.h:97-102 | The constructor's pool holds exactly the frames below `n`, `n` of them. |
| PagedFile.DistinctCard | include/pagedFile.h:61 | A list without repeats has as many distinct frames as entries. |
| PagedFile.LeastFrom | include/pagedFile.h:65 | `_unusedPage.top()` is a member of the pool and no greater than any other member (`std::greater` orders a min-heap). |
| PagedFile.OtherFd | include/pagedFile.h:188-203 | The frames `flushAllByFd(fd, true)` keeps listed are all from the original list. |
| PagedFile.OtherFdStep | include/pagedFile.h:191-202 | One element more: a frame of `fd` is dropped and any other frame is kept at the end. |
| PagedFile.OtherFdMembers | include/pagedFile.h:188-203 | A frame is kept exactly when it was listed and its page is not of `fd`. |
| PagedFile.FdReachedStart | include/pagedFile.h:188 | The loop starts at the head of the whole list. |
| PagedFile.FdReachedStep | include/pagedFile.h:191-202 | One round: the frame at the iterator is the next original entry. With `release`, a frame of `fd` is cut out and the iterator stays. Otherwise the iterator advances. |
| PagedFile.FdReachedDone | include/pagedFile.h:189 | When the iterator reaches the end, every original entry has been visited and the list is the kept frames. |
| PagedFile.FdLoopStart | include/pagedFile.h:188 | Before the first round nothing has changed. |
| PagedFile.FdLoopDone | include/pagedFile.h:189-203 | After the last round the state is the whole loop's, and the list is `OtherFd` with `release` or the old list without it. |
| PagedFile.ListOk | include/pagedFile.h:58-65 | The list part of the invariant: every frame below `CACHESIZE` is listed or free, never both, and no frame is listed twice. |
| PagedFile.IndexOk | include/pagedFile.h:58-65 | The index part: `_hashm` maps exactly the resident pages, each to the listed frame bound to it. |
| PagedFile.DataOk | include/pagedFile.h:58-65 | The data part: frames hold whole pages, free frames are clean, and a clean resident frame holds its page's disk bytes. |
| PagedFile.PoolInv | include/pagedFile.h:58-65 | The pool invariant: `ListOk`, `IndexOk` and `DataOk` together. Every operation's lemma proves it is kept. |
| PagedFile.Content | include/pagedFile.h:114-146 | A page's bytes as every `getPage` caller sees them: its frame's bytes if resident, else the disk's. |
| PagedFile.SameContent | include/pagedFile.h:114-146 | Two pool states show every page with the same bytes. |
| PagedFile.WriteBackFrame | include/pagedFile.h:72-81 | `writeToDisk` of frame `f` on the pool state. `WriteBackFrameKeeps` states its properties. |
| PagedFile.Release | include/pagedFile.h:159-162 | The release half of `flush(p, true)`: the frame leaves the list and the index and joins the heap. `ReleaseKeeps` states its properties. |
| PagedFile.Promote | include/pagedFile.h:120-123 | The hit path of `getPage`: the frame moves to the head of the list. `PromoteKeeps` states its properties. |
| PagedFile.Bind | include/pagedFile.h:133-143 | The miss path of `getPage`: a free frame is bound to the page, clean, at the head of the list, holding `DiskPage`. `BindKeeps` states its properties. |
| PagedFile.Store | test/main.cc:62-72 | A caller storing a page's bytes into its frame and setting `_dirty`. `StoreKeeps` states its properties. |
| PagedFile.ReleaseAll | include/pagedFile.h:172-181 | The release half of `flushAll(true)`: nothing listed or indexed, every frame in the heap. `ReleaseAllKeeps` states its properties. |
| PagedFile.Initial | include/pagedFile.h:92-103 | The constructor's state: nothing resident and every frame in the heap. `InitialKeeps` states its properties. |
| PagedFile.InitialKeeps | include/pagedFile.h:92-103 | The constructor's state meets the pool invariant, and every page reads as the disk holds it. |
| PagedFile.VictimExists | include/pagedFile.h:127-132 | When no frame is free some frame is listed, so `getPage` always has a tail to evict (the assertion at line 132 holds). |
| PagedFile.SameShapeKeeps | include/pagedFile.h:58-65 | A change that keeps list, index, pool and every frame's page keeps the list and index parts of the invariant. |
| PagedFile.WriteBackDisk | include/pagedFile.h:72-81 | `writeToDisk` changes the disk only at the frame's own page, and only when the frame is dirty. |
| PagedFile.WriteBackFrameData | include/pagedFile.h:72-81 | `writeToDisk` keeps the data part of the invariant and every page's content. The disk changes only at that frame's page. |
| PagedFile.WriteBackFrameKeeps | include/pagedFile.h:72-81 | `writeToDisk` keeps the invariant and every page's content and leaves the frame clean. The disk changes only at its page, which then holds the frame's bytes if they were dirty. |
| PagedFile.WriteBackShowsContent | include/pagedFile.h:72-81 | After writing back a listed frame, the disk holds its page's bytes as readers saw them. |
| PagedFile.ReleaseList | include/pagedFile.h:159-162 | Releasing a listed frame keeps the list part of the invariant. |
| PagedFile.ReleaseIndex | include/pagedFile.h:159-162 | Releasing a listed frame keeps the index part of the invariant. |
| PagedFile.ReleaseData | include/pagedFile.h:159-162 | Releasing a clean listed frame keeps the data part and every page's content. |
| PagedFile.ReleaseKeeps | include/pagedFile.h:154-164 | Releasing a clean listed frame keeps the invariant and every page's content. |
| PagedFile.PromoteList | include/pagedFile.h:120-123 | Moving a listed frame to the head keeps the list part and only reorders the list. |
| PagedFile.PromoteIndex | include/pagedFile.h:120-123 | Moving a listed frame to the head keeps the index part. |
| PagedFile.PromoteKeeps | include/pagedFile.h:117-124 | The hit path keeps the invariant and the content and only reorders the list. |
| PagedFile.BindList | include/pagedFile.h:133-139 | Binding a free frame keeps the list part. |
| PagedFile.BindIndex | include/pagedFile.h:133-139 | Binding a free frame to a page that is not resident keeps the index part. |
| PagedFile.BindData | include/pagedFile.h:133-143 | Binding keeps the data part and every page's content: the new frame holds the page's disk bytes, or zeros past end of file. |
| PagedFile.BindKeeps | include/pagedFile.h:125-144 | The miss path keeps the invariant and every page's content. |
| PagedFile.StoreData | test/main.cc:62-72 | Storing into a listed frame keeps the data part. That page then reads as the stored bytes, and no other page changes. |
| PagedFile.StoreKeeps | test/main.cc:62-72 | A caller writing `_data` and setting `_dirty` keeps the invariant. Only that page's content changes, to the stored bytes. |
| PagedFile.ReleaseAllKeeps | include/pagedFile.h:172-181 | With every frame clean, releasing all frames keeps the invariant and every page's content. |
| PagedFile.WriteBackEach | include/pagedFile.h:168-171 | The first loop of `flushAll`: `writeToDisk` of each frame of a list, in order. |
| PagedFile.WriteBackEachKeeps | include/pagedFile.h:168-171 | Writing back a run of frames keeps the invariant, the content, the list, the index and the pool. Exactly those frames end clean, and the disk changes only at resident pages. |
| PagedFile.ListedOrFree | include/pagedFile.h:59-65 | A frame is listed or free exactly when it is one of the `cap` frames. |
| PagedFile.ListedAndFree | include/pagedFile.h:174-177 | The free frames plus the listed frames are all the frames. |
| PagedFile.PartitionCount | include/pagedFile.h:59-65 | Listed and free frames together number `CACHESIZE`. |
| PagedFile.FlushAllKeeps | include/pagedFile.h:166-182 | After the first loop of `flushAll`, no frame is dirty and the disk holds every page's content. The invariant, content, list, index and pool are kept. |
| PagedFile.FdStep | include/pagedFile.h:191-202 | One round of `flushAllByFd` keeps the number of frames (a frame of another descriptor is left alone). |
| PagedFile.FlushFd | include/pagedFile.h:188-203 | The loop of `flushAllByFd` keeps the number of frames. |
| PagedFile.FlushFdSnoc | include/pagedFile.h:188-203 | Running the loop over a list with one more frame equals one more round at the end. |
| PagedFile.FdStepKeeps | include/pagedFile.h:191-202 | One round keeps the invariant and the content and cleans only a frame of `fd`. The disk changes only at a resident page of `fd`. |
| PagedFile.FlushFdKeeps | include/pagedFile.h:188-203 | Rounds over distinct listed frames keep the invariant and the content and clean exactly the frames of `fd`. |
| PagedFile.FlushFdPrefix | include/pagedFile.h:188-203 | Part way through the loop the invariant holds and every frame keeps its page. |
| PagedFile.FdRoundsReady | include/pagedFile.h:188-203 | Every round of the loop finds listed frames inside the pool, no repeats, and frames bound to their original pages. |
| PagedFile.FdRoundPlan | include/pagedFile.h:191-202 | Round `j` starts at original entry `j`. The round is one `FdStep`, and the list and iterator move as the source's `erase`/`++i` do. |
| PagedFile.FdStepShape | include/pagedFile.h:191-202 | One round changes the list, index and pool only by releasing a frame of `fd`, and only with `release`. |
| PagedFile.FlushFdWriteOnly | include/pagedFile.h:188-203 | Without `release`, the list, index and pool are untouched. |
| PagedFile.FlushFdIndex | include/pagedFile.h:196 | With `release`, exactly the pages of `fd` leave the index. Other pages keep their frames. |
| PagedFile.FlushFdFree | include/pagedFile.h:197 | With `release`, exactly the listed frames of `fd` join the pool. |
| PagedFile.FlushFdDone | include/pagedFile.h:184-204 | Flushing a whole file keeps the invariant and the content, and every page of `fd` is on disk as readers saw it. Other descriptors' disk bytes and frames are untouched. With `release` no page of `fd` stays resident and its frames are free. |
| PagedFile.CleanFrames | include/pagedFile.h:97-102 | The constructor's loop: `n` new frames, each clean, zeroed and bound to no page, and a pool holding all of them. |
| PagedFile.PageManager.constructor | include/pagedFile.h:92-103 | The new pool is valid: nothing is listed or indexed, every frame is free, and every page reads as the disk holds it. |
| PagedFile.PageManager.Logical | include/pagedFile.h:114-146 | `Content` of the object's current state: the bytes `getPage` shows for a page. |
| PagedFile.PageManager.IsInCache | include/pagedFile.h:109-112 | True exactly when some listed frame holds the page, which is when the index has it. |
| PagedFile.PageManager.WriteToDisk | include/pagedFile.h:72-81 | A dirty frame is written at its page's address and becomes clean. A clean frame changes nothing, and no other frame changes. |
| PagedFile.PageManager.Flush | include/pagedFile.h:154-164 | Writes the frame back. With `release` it also erases the frame from the list and the index and returns it to the pool. The pool stays valid and no page's content changes. |
| PagedFile.PageManager.GetPage | include/pagedFile.h:114-146 | The page ends resident at the head of the list, and no page's content changes. A hit only promotes its frame. A miss evicts the LRU tail when nothing is free, then binds the least free frame to the page, holding its disk bytes or zeros. |
| PagedFile.PageManager.Touch | include/pagedFile.h:117-124 | The hit path: the page's frame moves to the head and nothing else changes. |
| PagedFile.PageManager.Load | include/pagedFile.h:133-144 | The miss path: the least free frame is bound to the page, clean, at the head, holding the bytes read or zeros. |
| PagedFile.PageManager.Write | test/main.cc:62-72 | Storing into a resident frame keeps the pool valid. That page reads as the new bytes and no other page changes. |
| PagedFile.PageManager.FlushAll | include/pagedFile.h:166-182 | The listed frames are written back in list order. With `release` everything is then freed. The pool stays valid. |
| PagedFile.PageManager.WriteBackListed | include/pagedFile.h:168-171 | The first loop of `flushAll` writes back every listed frame, in list order. |
| PagedFile.PageManager.ReleaseListed | include/pagedFile.h:172-181 | The second loop adds every listed frame to the pool, then clears the list and the index, without changing any page's content. |
| PagedFile.PageManager.FlushAllByFd | include/pagedFile.h:184-204 | The state becomes `FlushFd` of the old state over the old list, and the pool stays valid (see `FlushFdDone`). |
| PagedFile.PageManager.FdLoop | include/pagedFile.h:188-203 | The loop erases released frames in place. The list left is `OtherFd` of the old one with `release`, and unchanged without it. |
| PagedFile.PageManager.FdRound | include/pagedFile.h:191-202 | One round takes the state and the `(list, iterator)` pair from round `j` to round `j + 1`. |
| PagedFile.PageManager.ReleaseAt | include/pagedFile.h:196-198 | Erases the frame at list position `i` from the list and the index and returns it to the pool. |
| PagedFile.CloseFile | include/pagedFile.h:287-296 | After closing, no resident page belongs to `fd`, every page of `fd` is on disk as readers saw it, and no page's content changes. |
| PagedFile.WriteAndClose | test/main.cc:60-74 | After writing pages 0 and 2 of a file and closing it, the disk holds both pages' bytes. |
| PagedFile.PersistenceRoundTrip | test/main.cc:60-88 | Write pages 0 and 2, close the file, read both pages again: the readback returns the written bytes. |
| RecordMgr.CalSlotsPerPage | include/record.h:323-328 | The slot count never exceeds the bitmap's bit budget, with the divisor computed in 32-bit arithmetic. |
| RecordMgr.BitmapBytes | include/record.h:70 | `ceil(n, 8)` bytes hold at least `n` and fewer than `n + 8` bits. |
| RecordMgr.SlotPacking | include/record.h:323-328 | For every accepted record size at least one slot fits, and the page header, the bitmap and all slots fit in 4096 bytes. |
| RecordMgr.SlotsPerPageNotMaximal | include/record.h:325-328 | For 1-byte records the formula gives 3636 slots, though 3637 would fit. |
| RecordMgr.ShapeOf | include/record.h:359-360 | A header with an accepted record size and `calSlotsPerPage`'s slot count has the layout `SlotPacking` proves. |
| RecordMgr.View | include/record.h:231 | A `BitMap` over a page views exactly `width` bytes after the page header. |
| RecordMgr.Bitmap | include/record.h:70 | A data page's bitmap is `ceil(slotsPerPage, 8)` bytes long. |
| RecordMgr.SlotArea | include/record.h:123-124 | The slot area is everything after the bitmap. |
| RecordMgr.SlotFits | include/record.h:123-124 | Every slot below `slotsPerPage` lies inside the page. |
| RecordMgr.SlotsDisjoint | include/record.h:134-135 | Two different slots share no byte. |
| RecordMgr.SlotBytes | include/record.h:123-125 | A slot holds `recordSize` bytes. |
| RecordMgr.SlotOffset | include/record.h:124 | Slot `s` starts `recordSize * s` bytes into the slot area, as in `readSlot` and `writeSlot` (line 135). `SlotFits` and `SlotsDisjoint` state that each slot lies inside the page and that no two slots overlap. |
| RecordMgr.PageAt | include/pagedFile.h:140-143 | A data page as `getPage` gives it: its stored content, or all zeros when it lies past the end of the file. Its properties are stated by `PageAtOk`. |
| RecordMgr.EmptyPageOk | include/pagedFile.h:142-143 | A page past end of file reads as zeros, so it is a good page with no record. |
| RecordMgr.PageAtOk | include/record.h:68-70 | Every page of a good table, written or not, is a good page. |
| RecordMgr.UsedBounds | include/record.h:118 | A slot marked in a good table is on a written data page from 1 to `existsPageNum` and below `slotsPerPage`. |
| RecordMgr.Used | include/record.h:152-157 | Slot `s` of page `k` holds a record when its bit in the page's `ceil(slotsPerPage, 8)`-byte bitmap is set. |
| RecordMgr.PageOk | include/record.h:60-114 | The page invariant the slot operations keep: every slot below `_nextSlot` is used, the slot at `_nextSlot` is free, and bits past the last slot are clear. |
| RecordMgr.TableInv | include/record.h:48-114 | The table invariant: the header copies agree, `_nextPage` is a data page (or 1 in an empty table), only pages 1 to `_existsPageNum` were written, each is a good page, and every page before `_nextPage` is full. |
| RecordMgr.Claim | include/record.h:75-76 | `bm.set(_nextSlot); _nextSlot = bm.nextBit(_nextSlot + 1)` on one page (lines 92-93 do the same). `ClaimOk` states its properties. |
| RecordMgr.Unclaim | include/record.h:110-111 | `_nextSlot = min(_nextSlot, slot)` and `bm.reset(slot)` on one page. `UnclaimOk` states its properties. |
| RecordMgr.ClaimOk | include/record.h:75-76 | Taking the next free slot sets exactly that bit, touches no byte past the bitmap, and keeps the page good. |
| RecordMgr.UnclaimOk | include/record.h:110-111 | Giving a used slot back clears exactly that bit, touches no slot byte, and keeps the page good with `_nextSlot` below `slotsPerPage`. |
| RecordMgr.SetHeader | include/record.h:48-58 | `setFileHeader(e, np)` on the table value: both header copies get the counts, and page 0 is marked dirty when its copy changes. |
| RecordMgr.SetHeaderMarks | include/record.h:48-58 | Page 0 ends dirty exactly when it was dirty or its stored counts change. Repeating the call changes nothing. |
| RecordMgr.Start | include/record.h:62-65 | A table with no data page gets page 1 as both `_existsPageNum` and `_nextPage`. |
| RecordMgr.StartKeeps | include/record.h:62-65 | Starting a table with no data page gives it page 1 and keeps it good. |
| RecordMgr.FirstRoom | include/record.h:83-98 | The search loop stops at the first page from `from` on with room, at most one past the last data page, and every page it passes is full. |
| RecordMgr.RoomPage | include/record.h:62-98 | The page `getFreeSlot` takes a slot from: `_nextPage` if it has room, else the first later page with room (`FirstRoom`). |
| RecordMgr.RoomPageIsFirst | include/record.h:60-101 | `getFreeSlot`'s page has room, is not before `_nextPage`, and every data page before it is full. |
| RecordMgr.StorePageKeeps | include/record.h:94 | Storing a good page into the covered range keeps the table good, as long as the pages before `_nextPage` stay full. |
| RecordMgr.FreeSlot | include/record.h:60-101 | `getFreeSlot` on the table value: `Claim` on `RoomPage`, the page marked dirty, the header moved to that page. `FreeSlotTakes`, `FreeSlotLowest` and `FreeSlotKeeps` state its properties. |
| RecordMgr.FreeSlotShape | include/record.h:60-101 | `getFreeSlot` stores the claimed page, sets `_nextPage` to it, and raises `_existsPageNum` to cover it. |
| RecordMgr.FreeSlotKeeps | include/record.h:60-101 | `getFreeSlot` keeps the table good. |
| RecordMgr.FreeSlotTakes | include/record.h:60-101 | The slot handed out was free, is below `slotsPerPage`, and is on a data page. Afterwards exactly that slot is used in addition to the slots used before. |
| RecordMgr.FreeSlotLowest | include/record.h:60-101 | No free slot comes before the one handed out, in (page, slot) order. |
| RecordMgr.FreeSlotKeepsBytes | include/record.h:60-101 | `getFreeSlot` changes no byte of any slot. |
| RecordMgr.Deleted | include/record.h:104-114 | `deleteSlot` on the table value: `Unclaim` of the slot, its page marked dirty, `_nextPage` moved back to its page when that is earlier. `DeletedFrees` states its properties. |
| RecordMgr.DeletedKeeps | include/record.h:104-114 | `deleteSlot` keeps the table good. |
| RecordMgr.DeletedFrees | include/record.h:104-114 | `deleteSlot` frees exactly that slot and changes no slot byte. `_existsPageNum` stays, and `_nextPage` becomes the earlier of itself and the record's page. |
| RecordMgr.DeleteThenInsertReuses | include/record.h:104-114 | After a delete, the next insert takes the freed slot or an earlier one. |
| RecordMgr.Put | include/record.h:137 | `memcpy` keeps the buffer length. |
| RecordMgr.PutReads | include/record.h:137 | Reading back where `memcpy` wrote returns the written bytes. |
| RecordMgr.PutPast | include/record.h:134-137 | A copy past the bitmap leaves the bitmap alone. |
| RecordMgr.PutOutside | include/record.h:134-137 | Bytes outside the copied range read as before. |
| RecordMgr.Written | include/record.h:128-138 | `writeSlot` on the table value: `memcpy` of the data at the slot's offset after the bitmap, the page marked dirty. `ReadAfterWrite` and `WriteKeepsOthers` state its properties. |
| RecordMgr.WrittenShape | include/record.h:128-138 | `writeSlot` changes only the written page's slot area, and the header, bitmap and `_nextSlot` stay. |
| RecordMgr.WrittenKeeps | include/record.h:128-138 | `writeSlot` keeps the table good and changes no bitmap, `_nextSlot` or header. |
| RecordMgr.ReadAfterWrite | include/record.h:116-138 | After `writeSlot(r, d)`, `readSlot(r)` gives `d`. |
| RecordMgr.WriteKeepsOthers | include/record.h:128-138 | `writeSlot` leaves every other slot reading as before. |
| RecordMgr.Insert | include/record.h:174-179 | `insertRecord`: `FreeSlot`, then `Written` into the slot handed out. `InsertStores`, `InsertKeepsOthers` and `InsertTakesLowest` state its properties. |
| RecordMgr.InsertStores | include/record.h:174-179 | `insertRecord` stores the data in a slot that was free. That slot is now used and reads as the data, the other slots are used or free as before, and the table stays good. |
| RecordMgr.InsertKeepsOthers | include/record.h:174-179 | `insertRecord` leaves every other slot reading as before. |
| RecordMgr.SameSlotBytes | include/record.h:123-125 | Slots read the same on pages with the same slot area. |
| RecordMgr.InsertTakesLowest | include/record.h:174-179 | `insertRecord` takes the lowest free slot in (page, slot) order. |
| RecordMgr.WideBytes | include/record.h:231 | The view `++it` builds, `ceil(recordSize, 8)` bytes, fits in a page. |
| RecordMgr.EndRid | include/record.h:313-320 | `cend()`: slot `uint32_t(-1)` of page `_existsPageNum`. |
| RecordMgr.NextWith | include/record.h:228-268 | `++it` with the bitmap view and the later-page bound as parameters: the same-page scan from `_slot + 1` (32-bit), then `StepFrom`. |
| RecordMgr.StepFrom | include/record.h:233-264 | The three branches after the same-page scan: a hit below `slotsPerPage`, the end on the last page, or the later-page loop. |
| RecordMgr.PagesFrom | include/record.h:246-264 | The later-page loop: the first page from `npid` on whose first set bit passes the bound, or the end. |
| RecordMgr.NextAsWritten | include/record.h:228-268 | `++it` as written from a position on a data page: a view of `ceil(recordSize, 8)` bytes and the bound `npos < _existsPageNum`. Page 0 reads as zeros (see "## Left out"). |
| RecordMgr.NextFixed | include/record.h:228-268 | The corrected `++it`: the page's whole bitmap and the bound `npos < _slotsPerPage`. `NextFixedFinds` states its properties. |
| RecordMgr.BeginWith | include/record.h:294-312 | `cbegin()` with `++it` as a parameter: `cend()` for a table without data pages, else slot 0 of page 1 if used, else the step from it. |
| RecordMgr.BeginAsWritten | include/record.h:294-312 | `cbegin()` with `++it` as written. |
| RecordMgr.BeginFixed | include/record.h:294-312 | `cbegin()` with the corrected `++it`. `BeginFixedFinds` states its properties. |
| RecordMgr.IterPre | include/record.h:228-268 | The condition under which `++it` as written is right: the short view covers the bitmap, there are no more data pages than slots, and each later page's first record lies below `_existsPageNum`. |
| RecordMgr.AllUsedBounded | include/record.h:239-264 | Every used slot of a good table is on pages 1 to `existsPageNum` and below `slotsPerPage`. |
| RecordMgr.PagesFromFinds | include/record.h:246-264 | The later-page loop, reading each page's own bitmap, finds the first used slot on the remaining pages, or the end iterator. |
| RecordMgr.SamePageNext | include/record.h:232-236 | A same-page hit is the next used slot. |
| RecordMgr.SamePageDone | include/record.h:233-237 | A same-page miss means every later used slot is on a later page. |
| RecordMgr.PastLastNone | include/record.h:239-243 | A miss on the last page is the end iterator. |
| RecordMgr.NextWithCases | include/record.h:228-268 | `++it` goes to the same-page hit, to the end on the last page, or into the later-page loop. |
| RecordMgr.PagesFromCases | include/record.h:247-264 | One round of the later-page loop. |
| RecordMgr.NextFixedCases | include/record.h:228-268 | The three cases of the corrected `++it`. |
| RecordMgr.NextFixedFinds | include/record.h:228-268 | The corrected `++it` goes from a record to the first used slot after it in (page, slot) order, or to `cend()` when none is left, so every record is visited once. |
| RecordMgr.NextFixedStep | include/record.h:228-268 | `NextFixedFinds` on a table whose used slots are bounded. |
| RecordMgr.BeginFixedFinds | include/record.h:294-312 | The corrected `cbegin()` is the first record of the table, or `cend()` when the table holds none. |
| RecordMgr.BeginFixedStep | include/record.h:294-312 | `BeginFixedFinds` on a table whose used slots are bounded. |
| RecordMgr.WideScanAgrees | include/record.h:231-232 | A scan of the wide view and a scan of the bitmap agree whenever either finds a slot below `slotsPerPage`. |
| RecordMgr.PagesFromAgrees | include/record.h:246-264 | Under `IterPre`, the later-page loop as written matches the corrected one. |
| RecordMgr.NextAgrees | include/record.h:228-268 | Under `IterPre`, `++it` as written equals the corrected step. |
| RecordMgr.NextWithAgrees | include/record.h:228-268 | Two settings of `++it` agree when their scans and later-page loops agree. |
| RecordMgr.BeginAgrees | include/record.h:294-312 | Under `IterPre`, `cbegin()` as written equals the corrected one. |
| RecordMgr.AsWrittenFinds | include/record.h:228-268 | Under `IterPre`, `++it` as written goes from a record to the first used slot after it, or to `cend()`. |
| RecordMgr.TestConfigIterPre | test/main.cc:127-134 | The test's table meets `IterPre` when every page after the first has a record in slot 0 or 1. The table has 320-byte records (the struct at test/main.cc:155-161), so 12 slots a page, and the 100 inserts fill at most nine data pages. Deleting every fifth record (lines 198-205) and reinserting (lines 217-220) leaves slot 0 or 1 used on every page. |
| RecordMgr.NarrowTableOk | include/record.h:231 | The example table of 1-byte records is good and has records in slots 0 and 9 only. |
| RecordMgr.NarrowViewCounterexample | include/record.h:231 | `++it` as written goes from slot 0 to empty slot 8. The corrected step goes to slot 9. |
| RecordMgr.TwoPageTableOk | include/record.h:252 | The example table of 320-byte records (12 slots) is good, with records at page 1 slot 0 and page 2 slot 5. |
| RecordMgr.PageBoundCounterexample | include/record.h:252 | Because of the test `npos < _existsPageNum`, `++it` as written skips the record in slot 5 of page 2 and returns `cend()`. |
| RecordMgr.PageBoundFixed | include/record.h:252 | The corrected step goes from page 1 to slot 5 of page 2. |
| RecordMgr.CreatTable | include/record.h:352-364 | `creatTable` fails exactly when the record size exceeds `MAXRECORDSIZE`. |
| RecordMgr.OpenTable | include/record.h:337-347 | `openTable` fails exactly when the stored record size is 0. |
| RecordMgr.CreatTableChecked | include/record.h:344-354 | The checked `creatTable` fails exactly for record size 0 or above `MAXRECORDSIZE`. |
| RecordMgr.CreatedTableEmpty | include/record.h:352-364 | A created table is good and has no record and no data page. Its `_nextPage` is 1 and page 0 is dirty. |
| RecordMgr.ReopenRoundTrip | include/record.h:337-347 | Opening the written-back header and pages of a good table gives the same table back, with nothing dirty. |
| RecordMgr.ZeroSizeCounterexample | include/record.h:344-360 | `creatTable(0)` succeeds with 32729 slots, whose bitmap fills the page, but the table cannot be opened again. |
| RecordMgr.CreatedReopens | include/record.h:337-364 | Every table the checked `creatTable` makes opens again as the same table. |
| RecordMgr.RecordManager.constructor | include/record.h:142-145 | The manager holds the descriptor and table it is given. |
| RecordMgr.RecordManager.SetFileHeader | include/record.h:48-58 | Both copies of the header get the new counts, and page 0 is marked dirty when its copy changes. |
| RecordMgr.RecordManager.GetFreeSlot | include/record.h:60-101 | Keeps the table good and is `FreeSlot` of the old table, with `FreeSlotTakes` and `FreeSlotLowest` proved about it. |
| RecordMgr.RecordManager.DeleteSlot | include/record.h:104-114 | Keeps the table good and is `Deleted` of the old table (see `DeletedFrees`). |
| RecordMgr.RecordManager.WriteSlot | include/record.h:128-138 | Keeps the table good and is `Written` of the old table (see `ReadAfterWrite` and `WriteKeepsOthers`). |
| RecordMgr.RecordManager.ReadSlot | include/record.h:116-126 | `readSlot` (and `getRecordPointer`, `getRecord`) returns `recordSize` bytes, those of the record's slot (`SlotBytes`, about which `ReadAfterWrite` and `WriteKeepsOthers` are proved). |
| RecordMgr.RecordManager.IsRecord | include/record.h:152-157 | A slot reported as a record is on a data page from 1 to `existsPageNum` and below `slotsPerPage`. |
| RecordMgr.RecordManager.InsertRecord | include/record.h:174-179 | Keeps the table good and is `Insert` of the old table (see `InsertStores`). |
| RecordMgr.RecordManager.DeleteRecord | include/record.h:181-184 | Same as `deleteSlot`. |
| RecordMgr.RecordManager.UpdateRecord | include/record.h:186-189 | Same as `writeSlot`. |
| RecordMgr.RecordManager.Flush | include/record.h:191-205 | Page `uint32_t(-1)` flushes the whole file. For a resident page, the new pool is the old one with that page's frame promoted to the front (`getPage`), written back, and released exactly when `release` is set; no other frame is written. The page ends on disk as readers saw it. A page that is not resident changes nothing. No page's content changes. |
| RecordMgr.RecordManager.CBegin | include/record.h:294-312 | The iterator starts at `BeginFixed`: the first record, or `cend()`. |
| RecordMgr.RecordManager.CEnd | include/record.h:313-320 | The end iterator: slot `uint32_t(-1)` of page `existsPageNum`. |
| RecordMgr.Iterator.constructor | include/record.h:225-227 | The iterator holds its manager and position. |
| RecordMgr.Iterator.Next | include/record.h:228-268 | `++it` moves the position to `NextFixed` of the old position. |

## Left out

- Files and descriptors: `FileManager`'s `open`, `close`, `createFile`, `deleteFile`, `isFile`, and the path maps are operating-system I/O. Only `closeFile`'s flush of the pool is modelled (`CloseFile`). `RecordFileManager::closeTable` is that call. `deleteTable` only unlinks a file. The disk is keyed by descriptor, and a descriptor stands for its file across a close and a reopen. test/main.cc:78 reopens the path after closing it and may be given a different number; `PersistenceRoundTrip` reads back under the same descriptor.
- Hashing: `PidHash` and the robin-hood map are an implementation of a map and are modelled as `map<Pid, nat>`. The aligned arena behind the frames is folded into each frame's `data`.
- Short reads: `read` is assumed to return 0 or `PAGESIZE` bytes (`WholePages`). The source only asserts this.
- `nextBit`: the header does not define it. `Scan` is its assumed behaviour: the first index at or after the start whose bit is the target, else the bit length. Its one-argument call in `getFreeSlot` is taken to look for a clear bit.
- Page numbers: page and slot numbers compile as `uint32_t`. The model lets page numbers grow without bound and only reduces `_slot + 1` of `++it` modulo 2^32. A table of 2^32 pages is not modelled.
- Disk offsets: the pool addresses a page through the non-wrapping `ByteOffset`, so every page from 2^20 on is stored at a different offset than the 32-bit product at include/pagedFile.h:76 and 85 would seek to. The product as written is `ByteOffsetAsWritten` (Findings, last row).
- PagedFile.WriteBack: writes a page at the non-wrapping `ByteOffset`, not at the 32-bit product of include/pagedFile.h:76, so pages from 2^20 on do not alias earlier pages (Disk offsets).
- PagedFile.DiskPage: reads a page at the non-wrapping `ByteOffset`, not at the 32-bit product of include/pagedFile.h:85, so pages from 2^20 on do not alias earlier pages (Disk offsets).
- PagedFile.ReadFromDisk: reads at the non-wrapping `ByteOffset`, not at the 32-bit product of include/pagedFile.h:85, and returns 0 or `PAGESIZE` bytes (Disk offsets, Short reads).
- Callers' writes: the source lets callers write a page through `Page::_data`. `PageManager.Write` stands in for those writes.
- Pool and record layer: the record layer is not composed with the buffer pool. `RecordManager` works on the pages' logical content. `GetPage`, `FlushAll`, `FlushAllByFd` and `CloseFile` are proved not to change that content, and `dirty` records the pages the manager marks.
- RecordMgr.RecordManager.DeleteSlot: requires the record's descriptor to be the manager's. Page 0 never counts as a used slot. The source would read page 0's header bytes as a bitmap.
- RecordMgr.RecordManager.DeleteRecord: requires the record's descriptor to be the manager's, as `DeleteSlot` does.
- RecordMgr.RecordManager.ReadSlot: requires the record's descriptor to be the manager's and a page from 1 on.
- RecordMgr.RecordManager.WriteSlot: requires the record's descriptor to be the manager's and a page from 1 on.
- RecordMgr.RecordManager.UpdateRecord: requires the record's descriptor to be the manager's and a page from 1 on, as `WriteSlot` does.
- RecordMgr.RecordManager.IsRecord: requires the record's descriptor to be the manager's and a page from 1 on, although `isRecord` checks neither. The record manager has no way to read another descriptor's pages, and page 0 holds the table header, not a bitmap. Every call in the source passes a record of the manager's own table on a data page.
- Getters and thin wrappers: `Iterator::operator++(int)`, `operator==`, `operator!=`, `getRid`, `getFd` and `getPageManager` only copy or compare fields. `operator*`, `getRecordPointer` and `getRecord` are `ReadSlot`.
- RecordMgr.NextAsWritten: models `++it` as written for positions on data pages. Page 0 reads as zeros in the model, because the table's pages hold only data pages and the header's byte layout depends on the host. So `++` applied to `cend()` of a table with no data page scans zeros where the source scans the `TableHeader`'s bytes. That case is not modelled as written: with 40-byte records the model gives slot 40, where the source would find a set bit of `_slotsPerPage`.
- RecordMgr.Iterator.Next: models the corrected `++it`, not the step as written. `NextAsWritten` models the code as written for positions on data pages, and `NextAgrees` gives the condition under which the two agree (see Findings). Page 0 reads as zeros, so `++` applied to `cend()` of a table with no data page is not modelled as written.
- RecordMgr.RecordManager.CBegin: calls the corrected `++it`, for the same reason.
- PagedFile.FdStep: a frame number outside the pool is a round that changes nothing. The pool invariant keeps every listed frame inside the pool, so this case never arises.
- PagedFile.PageManager.FlushAllByFd: the loop body's effect is stated as a function of the state, and `FlushFdDone` proves its properties.
- Concurrency and timing: `O_DIRECT`, `O_ASYNC` and the `PageManager` destructor's flush at exit are left out. The destructor's flush is `FlushAll(false)`.

## Findings

| source | as written | input that shows it | evidently intended | confidence | as-written member | corrected member |
|---|---|---|---|---|---|---|
| include/record.h:231 | `++it` views `ceil(_recordSize, 8)` bytes of the bitmap, also at line 250 | 1-byte records (3636 slots), records in slots 0 and 9 of page 1: from slot 0 the scan runs off the 1-byte view and yields empty slot 8 | view `ceil(_slotsPerPage, 8)` bytes, the page's whole bitmap, and go to slot 9 | not executed | RecordMgr.NarrowViewCounterexample | RecordMgr.NextFixedFinds |
| include/record.h:252 | a later page's first set bit is accepted only when `npos < _existsPageNum` | 320-byte records (12 slots), records at page 1 slot 0 and page 2 slot 5: from page 1 slot 0 the result is `cend()` | accept `npos < _slotsPerPage` and go to page 2 slot 5 | not executed | RecordMgr.PageBoundCounterexample | RecordMgr.PageBoundFixed |
| include/record.h:354 | `creatTable` asserts only `recordSize <= MAXRECORDSIZE`, while `openTable` asserts `_recordSize != 0` (line 344) | `creatTable(path, 0)` makes a table with 32729 slots that `openTable` refuses | also refuse record size 0 when creating | not executed | RecordMgr.ZeroSizeCounterexample | RecordMgr.CreatedReopens |
| include/pagedFile.h:76 | `lseek` offset `pageNum * PAGESIZE` is a 32-bit `unsigned` product, also at line 85 | page 2^20 of a file seeks to offset 0, the offset of page 0 | compute the offset in `off_t`, so different pages never share bytes | not executed | PagedFile.ByteOffsetAsWrittenAliases | PagedFile.AddrOfInjective |
