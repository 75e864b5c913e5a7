# Object-file cache of the Open Watcom linker, in Dafny

This project models the linker's input cache (`bld/wl/c/mixcache.c`). Each
input file is cached in one of two modes:

- **full caching**: the whole file is read into one buffer when it is opened;
- **paged caching**: a table of 8192-byte page slots, each read from the file
  the first time a read touches it.

A read that stays inside one page returns a pointer into that page. A read
that spans pages is copied into the process-wide scratch buffer
(`TokBuff`/`TokSize`), and the `Multipage` flag records that the result is
not permanent. `CachePermRead` turns a read into memory the caller owns.
Pages are evicted per file (`DumpFileCache`) at the end of pass 1 and pass 3
(`CacheClose`, `FreeObjCache`). Under memory pressure, a sweep over all
cached files (`DumpObjCache`) frees the pages of one file, never those of
the current module's source.

Layout:

- `pages.dfy`, module `CachePages`: page arithmetic (`NumCacheBlocks`, the
  last page a read touches, rounding to sectors) and the I/O layer. A file's
  contents are a sequence of bytes, `disk`. `QRead` is `DiskRead`. The seeks,
  reads and closes issued on a handle are recorded in a ghost log. `LoadTrace`
  is the log that loading a run of pages must produce, and the lemmas about it
  state which pages are read and when a seek happens.
- `mixcache.dfy`, module `MixCache`: the file record `InFile` (the
  `infilelist` fields the cache uses) and the statics `Multipage`, `TokBuff`
  and `TokSize` as class `ObjCache`. It holds every operation of the cache,
  proved against the page table, the file contents and the I/O log.
- `scenarios.dfy`, module `CacheScenarios`: verified scenarios on 500-byte and
  20000-byte files, each with its outcome stated as a postcondition.

Decisions that follow the code:

- "Mode already chosen" (`INSTAT_SET_CACHE`, line 94) is modelled as "one
  of the two mode bits is set". The file only ever sets the mode bits, so
  this assumes the `SET_CACHE` mask covers exactly those two bits.
- A full-cache read returns before `Multipage = false` (lines 192-197), so
  `CacheIsPerm` keeps the value left by the last paged read.
- A non-nuking `DumpFileCache` keeps slot `currpos / 8192` (line 286).
  Loading page `i` leaves `currpos` at `(i + 1) * 8192` (line 211), so the
  kept slot is the page after the last page loaded, not that page itself.
  The model keeps this behaviour and states it
  (`KeptPageFollowsLastLoad`, `PassOneKeepsPageAfterLastLoaded`).
- The paged path of `CacheRead` indexes the page table without a bounds
  check. Its precondition (`ReadAllowed`) is that the last page touched has
  a slot. An empty read at the end of a file whose length is a multiple of
  8192 violates it (`EmptyReadAtAlignedEndOutOfRange`).

## Model

| member | source | states |
|---|---|---|
| CachePages.NumCacheBlocks | bld/wl/c/mixcache.c:55-66 | the slot count covers the file (n * 8192 >= len), and one slot fewer would not |
| CachePages.NumCacheBlocksLeast | bld/wl/c/mixcache.c:55-66 | every page count that covers the file is at least NumCacheBlocks: it is the ceiling of len / 8192 |
| CachePages.LastPage | bld/wl/c/mixcache.c:199-219 | the page where the loading loop stops holds the last requested byte (the byte at pos for an empty read); it is the first page exactly when the read fits in the rest of that page |
| CachePages.InFileReadInRange | bld/wl/c/mixcache.c:204-205 | a read inside the file, other than an empty read at its end, only indexes slots of the page table |
| CachePages.EmptyReadAtAlignedEndOutOfRange | bld/wl/c/mixcache.c:199-205 | an empty read at the end of a file whose length is a multiple of 8192 indexes one slot past the table |
| CachePages.RoundUpToSector | bld/wl/c/mixcache.c:224 | ROUND_UP gives a multiple of the sector size that is at least len and less than one sector above it |
| CachePages.DiskRead | bld/wl/c/mixcache.c:212 | a read returns the requested number of bytes, equal to the file's bytes wherever the file has them, and exactly a slice of the file when it lies inside the file |
| CachePages.ResidentReadNoIo | bld/wl/c/mixcache.c:205-213 | pages that are already resident cost no seek and no read, and leave the handle position unchanged |
| CachePages.LoadTraceReadsMissing | bld/wl/c/mixcache.c:204-219 | a paged read reads each page of its range exactly when that page was not resident, and reads no page outside its range |
| CachePages.SequentialScanNoSeek | bld/wl/c/mixcache.c:207-211 | loading consecutive missing pages with the handle at the first one seeks never: one read per page, and the handle ends past the range |
| CachePages.PositionAfterLastLoad | bld/wl/c/mixcache.c:211 | after a read that loaded pages, the handle position is the start of the page after the last page loaded |
| MixCache.ChooseMode | bld/wl/c/mixcache.c:94-106 | paged exactly when LF_CACHE_FLAG is clear and either LF_NOCACHE_FLAG is set or the file is a library; LF_CACHE_FLAG always means full caching |
| MixCache.KeptSlot | bld/wl/c/mixcache.c:283-287 | nuking keeps no slot; otherwise the kept slot is the page containing the handle position |
| MixCache.KeptPageFollowsLastLoad | bld/wl/c/mixcache.c:283-287 | after a read that loaded page j last, a non-nuking dump keeps slot j + 1, not page j |
| MixCache.OpenHandle | bld/wl/c/mixcache.c:78-93 | a file already in error fails with no change; a failed open sets the error flag; a successful open marks the file in use and sets an unknown length from the file size, failing with the error flag when that size is 0 |
| MixCache.SelectMode | bld/wl/c/mixcache.c:94-106 | a mode already chosen is kept; otherwise the mode bits become those ChooseMode picks, exactly one of them set |
| MixCache.SetUpStorage | bld/wl/c/mixcache.c:107-123 | existing storage is untouched; full mode reads the whole file in one read, seeking to 0 only when the handle is elsewhere, and leaves the handle at the end; paged mode creates NumCacheBlocks(len) empty slots with no I/O |
| MixCache.CacheOpen | bld/wl/c/mixcache.c:68-125 | a null list succeeds with no effect; every failure path with the exact new file state; on success the mode and the storage as above, so a second open neither changes the mode nor reads again |
| MixCache.DumpFileCache | bld/wl/c/mixcache.c:273-301 | every slot except the kept one is emptied and the kept one is untouched; the result is true exactly when a resident page other than the kept one existed; with no storage nothing changes and the result is false |
| MixCache.FreeObjCache | bld/wl/c/mixcache.c:303-314 | the file loses all storage, every page of a page table is freed, nothing else in the record changes |
| MixCache.CacheClose | bld/wl/c/mixcache.c:127-157 | in-use is always cleared; pass 1 frees a full cache only for non-libraries and trims a page table, keeping the slot at the handle for libraries; pass 3 frees everything and closes an open handle, logging one close; other passes change nothing else, page contents included |
| MixCache.SweepFile | bld/wl/c/mixcache.c:323-329 | dumping one eligible file frees its pages exactly when it had one, and leaves every other file's pages as they were |
| MixCache.DumpObjCache | bld/wl/c/mixcache.c:316-333 | frees pages of at most one file: the first paged file in list order, other than the current module's source, with a resident page; it returns true then; it returns false, with nothing freed, exactly when no such file exists; the current module's source never loses a page |
| MixCache.CacheEnd | bld/wl/c/mixcache.c:253-257 | true exactly when no byte exists at pos; a one-byte read at a position before the end stays inside the page table |
| MixCache.LoadPage | bld/wl/c/mixcache.c:205-213 | the page becomes resident with the file's bytes, a resident page is not reloaded, no other slot changes, and the log grows by an optional seek and one page read |
| MixCache.LoadPages | bld/wl/c/mixcache.c:197-219 | every page from pos's page to the last page touched is resident, no other slot changes, the log is LoadTrace of the range, and the result is whether the read spans pages |
| MixCache.ObjCache.Reserve | bld/wl/c/mixcache.c:223-226 | TokSize never shrinks, is at least len afterwards, and grows to ROUND_UP(len, SECTOR_SIZE), in a new buffer, exactly when len exceeds it; otherwise the same TokBuff is kept |
| MixCache.ObjCache.Assemble | bld/wl/c/mixcache.c:220-243 | the first len bytes of TokBuff are the file's bytes from pos on; TokBuff is a new buffer exactly when len exceeded TokSize, otherwise the same buffer is reused |
| MixCache.ObjCache.CacheRead | bld/wl/c/mixcache.c:179-245 | full cache: no pointer when pos + len passes the end, else the file's bytes at pos, with nothing changed (Multipage included); paged: the pages of the range are loaded as LoadPages states, the result is len file bytes from pos, in the page itself when one page is touched (TokBuff untouched) and in TokBuff otherwise, which is replaced only when len exceeds TokSize, and Multipage is whether it spans pages |
| MixCache.ObjCache.CacheIsPerm | bld/wl/c/mixcache.c:247-251 | true exactly when the last paged read did not return the scratch buffer |
| MixCache.ObjCache.CachePermRead | bld/wl/c/mixcache.c:159-177 | full cache: exactly CacheRead's pointer; paged: a fresh buffer of the caller's holding the len file bytes from pos, distinct from TokBuff; a spanning read gives the caller a fresh copy of TokBuff's first len bytes (the realloc of line 169) and replaces TokBuff by a new buffer of TokSize bytes, while a single-page read leaves TokBuff and its contents alone; afterwards CacheIsPerm holds |
| MixCache.ObjCache.CacheFree | bld/wl/c/mixcache.c:264-271 | caller-owned memory is released exactly when the file is paged |
| CacheScenarios.LibrarySpanningRead | bld/wl/c/mixcache.c:179-245 | a 9000-byte read at 8000 of a 20000-byte library reads pages 0, 1, 2 in order with no seek, returns the file's bytes in the scratch buffer, and is not permanent |
| CacheScenarios.FullCacheReads | bld/wl/c/mixcache.c:192-196 | a 500-byte object file is read once; a read inside it points into the whole-file buffer, a read past the end gives no pointer, and both leave CacheIsPerm true |
| CacheScenarios.OpenTwice | bld/wl/c/mixcache.c:94-123 | a second open, even with other flags, keeps full caching and issues no I/O |
| CacheScenarios.PermReadSurvives | bld/wl/c/mixcache.c:159-177 | a spanning permanent read is permanent, and its bytes survive a later spanning read that fits in, and reuses, the TokBuff it left |
| CacheScenarios.PassOneKeepsPageAfterLastLoaded | bld/wl/c/mixcache.c:139-147 | closing a library on pass 1 after reading page 0 frees page 0, because the kept slot is page 1 |
| CacheScenarios.SweepSkipsCurrent | bld/wl/c/mixcache.c:316-333 | with two paged files holding a page, the sweep passes over the current module's source and frees the other file's page |

## Left out

- Real I/O. `DoObjOpen`'s outcome is the parameter `openOk` of CacheOpen. `QFileSize` is the length of `disk`. `QRead`, `QSeek`, `QLSeek` and `QClose` are recorded in the ghost log. Read errors are not modelled.
- Bytes of a page past the end of the file: the body of DiskRead fills them with zeros, but no contract depends on their value.
- The allocator. Allocation always succeeds with fresh storage, and the abort of `_ChkAlloc` is not modelled. `_Pass1Alloc` is an ordinary allocation. Freed memory is modelled by the slot becoming empty, or by the buffer leaving the ghost set `owned`.
- MixCache.ObjCache.CachePermRead: `_LnkRealloc` of the scratch buffer to `len` bytes is modelled as a fresh buffer holding TokBuff's first `len` bytes; whether realloc keeps the address is not captured.
- MixCache.ObjCache.Reserve: growing TokBuff with `_LnkRealloc` is modelled as a fresh buffer whose old contents are not kept; no contract depends on them.
- The page-pointer array itself is never freed by this file, and the model does not free it either.
- `LnkMsg` diagnostics (line 89): only the error flag that accompanies the message is modelled.
- Pointer arithmetic: a returned pointer is a `View` naming the region it points into (whole-file buffer, a page, the scratch buffer), an offset, and the bytes it shows.
- Integer widths: positions and lengths are unbounded naturals, so an overflow of `pos + len` in `unsigned long` or `size_t` is not modelled.
- `SECTOR_SIZE` is defined in a header that is not part of this model; it is taken as 512, and only its positivity matters.
- MixCache.DumpObjCache: the registry `CachedFiles` is a given sequence with distinct page tables, and `CurrMod->f.source->file` is the parameter `current` (null when any link of that chain is null). How files join the registry is not part of this model. The out-parameter `victim` is ghost: it only names the file that lost its pages.
- MixCache.ObjCache.CacheRead: `Multipage` is set once after the pages are loaded, not while the loop runs; nothing reads it in between.
- `CacheFini` has an empty body.
- `bld/clib/startup/h/getds.h` declares calling conventions and has no logic to model.
