/** The linker's object-file cache: full caching (the whole file in one
    buffer) or paged caching (page slots loaded on first touch), the
    multi-page read assembly in the process-wide scratch buffer, and the
    pass-driven and memory-pressure eviction. */
module MixCache {
  import opened CachePages

  /** LinkFlags bits consulted when a file's caching mode is chosen. */
  datatype LinkFlags = LinkFlags(cacheFlag: bool, noCacheFlag: bool)

  datatype Mode = FullMode | PagedMode

  /** Mode selection for a file whose mode is not yet set: LF_CACHE_FLAG
      forces full caching, LF_NOCACHE_FLAG forces paging, and otherwise
      libraries are paged and other object files fully cached. */
  function ChooseMode(flags: LinkFlags, library: bool): (m: Mode)
    ensures m == PagedMode <==> !flags.cacheFlag && (flags.noCacheFlag || library)
    ensures flags.cacheFlag ==> m == FullMode
  {
    if flags.cacheFlag then FullMode
    else if flags.noCacheFlag then PagedMode
    else if library then PagedMode
    else FullMode
  }

  /** A file's cache storage: none, the whole file, or a page table whose
      slots are empty or hold a loaded page. */
  datatype Storage =
    | NoStorage
    | Whole(buf: seq<byte>)
    | Paged(slots: array<Option<seq<byte>>>)

  /** The page kept by DumpFileCache: none when nuking, otherwise the slot
      at the tracked handle position. */
  function KeptSlot(nuke: bool, currpos: nat): (keep: Option<nat>)
    ensures keep.Some? <==> !nuke
    ensures keep.Some? ==> keep.value * PageSize <= currpos < (keep.value + 1) * PageSize
  {
    if nuke then None else Some(currpos / PageSize)
  }

  /** After a read that loaded pages, the page a non-nuking dump keeps is
      the one after the last page loaded, not that page itself. */
  lemma KeptPageFollowsLastLoad(res: seq<bool>, t: Trace, lo: nat, hi: nat, j: nat)
    requires lo <= j < hi <= |res| && !res[j]
    requires forall k :: j < k < hi ==> res[k]
    ensures KeptSlot(false, LoadTrace(res, t, lo, hi).pos) == Some(j + 1)
  {
  }

  /** Snapshot of a file record's fields. */
  datatype FileState = FileState(
    len: nat, currpos: nat, handleOpen: bool, ioErr: bool, inUse: bool,
    fullCache: bool, pageCache: bool, cache: Storage, log: seq<IoOp>)

  /** One input file (infilelist). */
  class InFile {
    /** What the I/O layer delivers for this file. */
    const disk: seq<byte>
    /** INSTAT_LIBRARY */
    const library: bool
    /** Length in bytes; 0 until known. */
    var len: nat
    /** Offset the handle is positioned at. */
    var currpos: nat
    /** The handle is not NIL_FHANDLE. */
    var handleOpen: bool
    /** INSTAT_IOERR, INSTAT_IN_USE, INSTAT_FULL_CACHE, INSTAT_PAGE_CACHE */
    var ioErr: bool
    var inUse: bool
    var fullCache: bool
    var pageCache: bool
    var cache: Storage
    /** Seeks, reads and closes issued on the handle. */
    ghost var log: seq<IoOp>

    constructor (disk: seq<byte>, library: bool, len: nat)
      requires len == 0 || len == |disk|
      ensures this.disk == disk && this.library == library
      ensures State() == FileState(len, 0, false, false, false, false, false, NoStorage, [])
      ensures Valid()
    {
      this.disk := disk;
      this.library := library;
      this.len := len;
      currpos := 0;
      handleOpen := false;
      ioErr, inUse, fullCache, pageCache := false, false, false, false;
      cache := NoStorage;
      log := [];
    }

    /** INSTAT_SET_CACHE: a caching mode has been chosen. */
    predicate ModeChosen()
      reads this
    {
      fullCache || pageCache
    }

    function Footprint(): set<object>
      reads this
    {
      if cache.Paged? then {this, cache.slots} else {this}
    }

    ghost function State(): FileState
      reads this
    {
      FileState(len, currpos, handleOpen, ioErr, inUse, fullCache, pageCache, cache, log)
    }

    ghost predicate Valid()
      reads this, Footprint()
    {
      !(fullCache && pageCache) &&
      (len == 0 || len == |disk|) &&
      match cache
      case NoStorage => true
      case Whole(buf) => fullCache && len == |disk| && buf == disk
      case Paged(slots) =>
        pageCache && len == |disk| && slots.Length == NumCacheBlocks(len) &&
        forall i :: 0 <= i < slots.Length && slots[i].Some? ==> PageHolds(slots[i].value, disk, i)
    }
  }

  /** Every slot except `keep` was emptied; `keep` is untouched. */
  twostate predicate Trimmed(slots: array<Option<seq<byte>>>, keep: Option<nat>)
    reads slots
  {
    forall i :: 0 <= i < slots.Length ==>
      slots[i] == if keep == Some(i) then old(slots[i]) else None
  }

  /** Pages first .. last are resident, resident pages kept their
      contents, and no other slot changed. */
  twostate predicate Loaded(slots: array<Option<seq<byte>>>, first: nat, last: nat)
    reads slots
  {
    forall i :: 0 <= i < slots.Length ==>
      if first <= i <= last then slots[i].Some? && (old(slots[i]).Some? ==> slots[i] == old(slots[i]))
      else slots[i] == old(slots[i])
  }

  /** Builds a file's storage if it has none: the whole file read at once
      (seeking to the start only if the handle is elsewhere), or a page
      table of empty slots. */
  method SetUpStorage(f: InFile)
    requires f.Valid() && f.len == |f.disk| > 0 && f.ModeChosen()
    modifies f`cache, f`currpos, f`log
    ensures f.Valid()
    ensures old(f.cache) != NoStorage ==> f.cache == old(f.cache) && f.currpos == old(f.currpos) && f.log == old(f.log)
    ensures old(f.cache) == NoStorage && f.fullCache ==>
              f.cache == Whole(f.disk) && f.currpos == f.len &&
              f.log == old(f.log) + (if old(f.currpos) != 0 then [Seek(0)] else []) + [Read(0, f.len)]
    ensures old(f.cache) == NoStorage && !f.fullCache ==>
              f.cache.Paged? && fresh(f.cache.slots) &&
              f.cache.slots.Length == NumCacheBlocks(f.len) &&
              (forall i :: 0 <= i < f.cache.slots.Length ==> f.cache.slots[i] == None) &&
              f.currpos == old(f.currpos) && f.log == old(f.log)
  {
    if f.cache == NoStorage {
      if f.fullCache {
        if f.currpos != 0 {
          f.log := f.log + [Seek(0)];
        }
        f.cache := Whole(DiskRead(f.disk, 0, f.len));
        f.log := f.log + [Read(0, f.len)];
        f.currpos := f.len;
      } else {
        var numblocks := NumCacheBlocks(f.len);
        var slots := new Option<seq<byte>>[numblocks];
        var i := 0;
        while i < numblocks
          modifies slots
          invariant 0 <= i <= numblocks
          invariant forall k :: 0 <= k < i ==> slots[k] == None
        {
          slots[i] := None;
          i := i + 1;
        }
        f.cache := Paged(slots);
      }
    }
  }

  /** Sets the caching mode bit of a file that has none yet. */
  method SelectMode(f: InFile, flags: LinkFlags)
    requires f.Valid()
    modifies f`fullCache, f`pageCache
    ensures f.Valid() && f.ModeChosen()
    ensures (f.fullCache, f.pageCache) ==
              (if old(f.ModeChosen()) then (old(f.fullCache), old(f.pageCache))
               else (ChooseMode(flags, f.library) == FullMode, ChooseMode(flags, f.library) == PagedMode))
  {
    if !f.ModeChosen() {
      if flags.cacheFlag {
        f.fullCache := true;
      } else if flags.noCacheFlag {
        f.pageCache := true;
      } else {
        if f.library {
          f.pageCache := true;
        } else {
          f.fullCache := true;
        }
      }
    }
  }

  /** CacheOpen's checks before the mode is chosen: a file that already
      failed stays failed, the open itself may fail, and an unknown length
      is queried, a length of zero being an error. */
  method OpenHandle(f: InFile, openOk: bool) returns (ok: bool)
    requires f.Valid()
    modifies f`ioErr, f`handleOpen, f`inUse, f`len
    ensures f.Valid()
    ensures old(f.ioErr) ==> !ok && f.State() == old(f.State())
    ensures !old(f.ioErr) && !openOk ==> !ok && f.State() == old(f.State()).(ioErr := true)
    ensures !old(f.ioErr) && openOk && old(f.len) == 0 && |f.disk| == 0 ==>
              !ok && f.State() == old(f.State()).(handleOpen := true, inUse := true, ioErr := true)
    ensures !old(f.ioErr) && openOk && (old(f.len) != 0 || |f.disk| != 0) ==>
              ok && f.State() == old(f.State()).(len := |f.disk|, handleOpen := true, inUse := true)
  {
    if f.ioErr {
      return false;
    }
    // DoObjOpen
    if openOk {
      f.handleOpen := true;
      f.inUse := true;
    } else {
      f.ioErr := true;
      return false;
    }
    if f.len == 0 {
      f.len := |f.disk|;  // QFileSize
      if f.len == 0 {
        f.ioErr := true;  // reported as a bad object file
        return false;
      }
    }
    return true;
  }

  /** CacheOpen: prepares a file for reading. A NULL list is accepted. */
  method CacheOpen(f: InFile?, flags: LinkFlags, openOk: bool) returns (ok: bool)
    requires f != null ==> f.Valid()
    modifies f
    ensures f == null ==> ok
    ensures f != null ==> f.Valid()
    ensures f != null && old(f.ioErr) ==> !ok && f.State() == old(f.State())
    ensures f != null && !old(f.ioErr) && !openOk ==>
              !ok && f.State() == old(f.State()).(ioErr := true)
    ensures f != null && !old(f.ioErr) && openOk && old(f.len) == 0 && |f.disk| == 0 ==>
              !ok && f.State() == old(f.State()).(handleOpen := true, inUse := true, ioErr := true)
    ensures f != null && !old(f.ioErr) && openOk && (old(f.len) != 0 || |f.disk| != 0) ==>
              ok && f.len == |f.disk| > 0 && f.handleOpen && f.inUse && !f.ioErr
    ensures f != null && ok ==>
              (f.fullCache, f.pageCache) ==
                (if old(f.ModeChosen()) then (old(f.fullCache), old(f.pageCache))
                 else (ChooseMode(flags, f.library) == FullMode, ChooseMode(flags, f.library) == PagedMode))
    ensures f != null && ok && old(f.cache) != NoStorage ==>
              f.cache == old(f.cache) && f.currpos == old(f.currpos) && f.log == old(f.log)
    ensures f != null && ok && old(f.cache) == NoStorage && f.fullCache ==>
              f.cache == Whole(f.disk) && f.currpos == f.len &&
              f.log == old(f.log) + (if old(f.currpos) != 0 then [Seek(0)] else []) + [Read(0, f.len)]
    ensures f != null && ok && old(f.cache) == NoStorage && !f.fullCache ==>
              f.cache.Paged? && fresh(f.cache.slots) &&
              f.cache.slots.Length == NumCacheBlocks(f.len) &&
              (forall i :: 0 <= i < f.cache.slots.Length ==> f.cache.slots[i] == None) &&
              f.currpos == old(f.currpos) && f.log == old(f.log)
  {
    if f == null {
      return true;
    }
    ok := OpenHandle(f, openOk);
    if !ok {
      return;
    }
    SelectMode(f, flags);
    SetUpStorage(f);
    ok := true;
  }

  /** Frees every loaded page except the kept one, and reports whether a
      page was freed. Callers never pass a fully cached file. */
  method DumpFileCache(f: InFile, nuke: bool) returns (blockfreed: bool)
    requires f.Valid()
    requires !f.cache.Whole?
    modifies if f.cache.Paged? then {f.cache.slots} else {}
    ensures f.Valid()
    ensures f.cache.Paged? ==> Trimmed(f.cache.slots, KeptSlot(nuke, f.currpos))
    ensures blockfreed <==>
              f.cache.Paged? &&
              exists i :: 0 <= i < f.cache.slots.Length && old(f.cache.slots[i]).Some? &&
                          KeptSlot(nuke, f.currpos) != Some(i)
    ensures !blockfreed && f.cache.Paged? ==> f.cache.slots[..] == old(f.cache.slots[..])
  {
    blockfreed := false;
    var savenum := KeptSlot(nuke, f.currpos);
    if f.cache.Paged? {
      var num := NumCacheBlocks(f.len);
      var blocklist := f.cache.slots;
      var index := 0;
      while index < num
        invariant 0 <= index <= num == blocklist.Length
        invariant forall i :: 0 <= i < index ==>
                    blocklist[i] == if savenum == Some(i) then old(blocklist[i]) else None
        invariant forall i :: index <= i < num ==> blocklist[i] == old(blocklist[i])
        invariant blockfreed <==>
                    exists i :: 0 <= i < index && old(blocklist[i]).Some? && savenum != Some(i)
        invariant !blockfreed ==> forall i :: 0 <= i < num ==> blocklist[i] == old(blocklist[i])
        invariant f.Valid()
      {
        if savenum != Some(index) && blocklist[index].Some? {
          blocklist[index] := None;
          blockfreed := true;
        }
        index := index + 1;
      }
    }
  }

  /** Releases all of a file's cache storage. */
  method FreeObjCache(f: InFile?)
    requires f != null ==> f.Valid()
    modifies if f != null then f.Footprint() else {}
    ensures f != null ==> f.Valid() && f.State() == old(f.State()).(cache := NoStorage)
    ensures f != null && old(f.cache).Paged? ==> Trimmed(old(f.cache).slots, None)
  {
    if f == null {
      return;
    }
    if !f.fullCache {
      var _ := DumpFileCache(f, true);
    }
    f.cache := NoStorage;
  }

  /** Pass-dependent close: pass 1 trims (keeping libraries' full caches
      and the page at a library's handle position), pass 3 frees all
      storage and closes the handle, other passes only clear in-use. */
  method CacheClose(f: InFile?, pass: nat)
    requires f != null ==> f.Valid()
    modifies if f != null then f.Footprint() else {}
    ensures f != null ==> f.Valid() && !f.inUse
    ensures f != null && pass == 1 && old(f.fullCache) ==>
              f.State() == old(f.State()).(inUse := false,
                                           cache := if f.library then old(f.cache) else NoStorage)
    ensures f != null && pass == 1 && !old(f.fullCache) ==>
              f.State() == old(f.State()).(inUse := false) &&
              (f.cache.Paged? ==> Trimmed(f.cache.slots, KeptSlot(!f.library, f.currpos)))
    ensures f != null && pass == 3 ==>
              f.State() == old(f.State()).(inUse := false, cache := NoStorage, handleOpen := false,
                                           log := old(f.log) + if old(f.handleOpen) then [Close] else []) &&
              (old(f.cache).Paged? ==> Trimmed(old(f.cache).slots, None))
    ensures f != null && pass != 1 && pass != 3 ==>
              f.State() == old(f.State()).(inUse := false) &&
              (f.cache.Paged? ==> f.cache.slots[..] == old(f.cache.slots[..]))
  {
    if f == null {
      return;
    }
    f.inUse := false;
    if pass == 1 {
      var nukecache := !f.library;
      if f.fullCache {
        if nukecache {
          FreeObjCache(f);
        }
      } else {
        var _ := DumpFileCache(f, nukecache);
      }
    } else if pass == 3 {
      FreeObjCache(f);
      if f.handleOpen {
        f.log := f.log + [Close];
        f.handleOpen := false;
      }
    }
  }

  /** A file the sweep would free pages of. */
  ghost predicate Victim(f: InFile, current: InFile?)
    reads f, f.Footprint()
  {
    f.pageCache && f != current && f.cache.Paged? &&
    exists i :: 0 <= i < f.cache.slots.Length && f.cache.slots[i].Some?
  }

  function SlotArrays(files: seq<InFile>): set<object>
    reads set f | f in files
  {
    set f | f in files && f.cache.Paged? :: f.cache.slots
  }

  /** CachedFiles: every file is valid and no two files share a page table. */
  ghost predicate Registry(files: seq<InFile>)
    reads (set f | f in files), SlotArrays(files)
  {
    (forall i :: 0 <= i < |files| ==> files[i].Valid()) &&
    forall i, j :: 0 <= i < |files| && 0 <= j < |files| && files[i] != files[j] &&
                   files[i].cache.Paged? && files[j].cache.Paged? ==>
                     files[i].cache.slots != files[j].cache.slots
  }

  /** The pages of files[k] are as they were. */
  twostate predicate PagesKept(files: seq<InFile>, k: nat)
    requires k < |files|
    reads files[k], files[k].Footprint()
  {
    files[k].cache == old(files[k].cache) &&
    (files[k].cache.Paged? ==> files[k].cache.slots[..] == old(files[k].cache.slots[..]))
  }

  /** One step of the sweep: dumps all pages of files[idx], a paged file
      that is not the current module's source. */
  method SweepFile(files: seq<InFile>, idx: nat, current: InFile?) returns (dumped: bool)
    requires Registry(files) && idx < |files|
    requires files[idx].pageCache && files[idx] != current
    modifies SlotArrays(files)
    ensures Registry(files)
    ensures dumped == old(Victim(files[idx], current))
    ensures dumped ==> Trimmed(files[idx].cache.slots, None)
    ensures forall k :: 0 <= k < |files| && (files[k] != files[idx] || !dumped) ==> PagesKept(files, k)
  {
    var file := files[idx];
    ghost var pre := if file.cache.Paged? then file.cache.slots[..] else [];
    dumped := DumpFileCache(file, true);
    forall k | 0 <= k < |files| && files[k] != file && files[k].cache.Paged?
      ensures files[k].cache.slots[..] == old(files[k].cache.slots[..])
    {
      assert file.cache.Paged? ==> files[k].cache.slots != file.cache.slots;
    }
    if dumped {
      ghost var i :| 0 <= i < |pre| && pre[i].Some?;
      assert old(file.cache.slots[i]).Some?;
    }
  }

  /** The memory-pressure sweep: frees all pages of the first paged file in
      CachedFiles order that has one and is not the current module's
      source (`current` is CurrMod->f.source->file, or null). `victim` names
      the file that lost its pages. */
  method DumpObjCache(files: seq<InFile>, current: InFile?) returns (freed: bool, ghost victim: nat)
    requires Registry(files)
    modifies SlotArrays(files)
    ensures Registry(files)
    ensures !freed ==>
              (forall k :: 0 <= k < |files| ==> !old(Victim(files[k], current))) &&
              (forall k :: 0 <= k < |files| ==> PagesKept(files, k))
    ensures freed ==>
              victim < |files| && old(Victim(files[victim], current)) &&
              (forall k :: 0 <= k < victim ==> !old(Victim(files[k], current))) &&
              Trimmed(files[victim].cache.slots, None) &&
              (forall k :: 0 <= k < |files| && files[k] != files[victim] ==> PagesKept(files, k))
    ensures forall k :: 0 <= k < |files| && files[k] == current ==> PagesKept(files, k)
  {
    victim := 0;
    var idx := 0;
    while idx < |files|
      invariant 0 <= idx <= |files|
      invariant Registry(files)
      invariant forall k :: 0 <= k < |files| && files[k].cache.Paged? ==>
                  files[k].cache.slots[..] == old(files[k].cache.slots[..])
      invariant forall k :: 0 <= k < idx ==> !old(Victim(files[k], current))
    {
      var file := files[idx];
      if file.pageCache {
        if file != current {
          var dumped := SweepFile(files, idx, current);
          if dumped {
            return true, idx;
          }
        }
      }
      idx := idx + 1;
    }
    return false, 0;
  }

  /** CacheEnd: the end-of-data test. */
  function CacheEnd(f: InFile, pos: nat): (atEnd: bool)
    reads f
    ensures atEnd <==> pos + 1 > f.len
    ensures !atEnd ==> LastPage(pos, 1) < NumCacheBlocks(f.len)
  {
    pos >= f.len
  }

  /** What CacheRead demands of its caller: an open cache, and for a paged
      file a range whose last page has a slot. */
  ghost predicate ReadAllowed(f: InFile, pos: nat, len: nat)
    reads f
  {
    if f.fullCache then pos + len <= f.len ==> f.cache.Whole?
    else f.cache.Paged? && LastPage(pos, len) < NumCacheBlocks(f.len)
  }

  /** Where a returned pointer points. */
  datatype Region = WholeFile | Page(index: nat) | Scratch | CallerOwned

  /** A pointer returned by a read and the bytes it shows. */
  datatype View = NullView | View(region: Region, offset: nat, bytes: seq<byte>)

  /** The result of CachePermRead: a pointer into a full-cache buffer, or
      a buffer the caller owns and releases with CacheFree. */
  datatype PermBuf = Borrowed(view: View) | Owned(buf: array<byte>)

  /** Makes page i resident (the body of CacheRead's loading loop). */
  method LoadPage(f: InFile, i: nat)
    requires f.Valid() && f.cache.Paged? && i < f.cache.slots.Length
    modifies f`currpos, f`log, f.cache.slots
    ensures f.Valid()
    ensures f.cache.slots[i].Some?
    ensures old(f.cache.slots[i]).Some? ==> f.cache.slots[i] == old(f.cache.slots[i])
    ensures forall k :: 0 <= k < f.cache.slots.Length && k != i ==> f.cache.slots[k] == old(f.cache.slots[k])
    ensures Trace(f.log, f.currpos) ==
              LoadStep(Trace(old(f.log), old(f.currpos)), old(f.cache.slots[i]).Some?, i)
  {
    var slots := f.cache.slots;
    if slots[i].None? {
      var newpos := i * PageSize;
      if f.currpos != newpos {
        f.log := f.log + [Seek(newpos)];
      }
      f.currpos := newpos + PageSize;
      slots[i] := Some(DiskRead(f.disk, newpos, PageSize));
      f.log := f.log + [Read(newpos, PageSize)];
    }
  }

  /** Makes every page from the one holding `pos` to the one holding the
      last requested byte resident, in order (CacheRead's first loop), and
      reports whether the read spans more than one page. */
  method LoadPages(f: InFile, pos: nat, len: nat) returns (multi: bool)
    requires f.Valid() && f.cache.Paged? && LastPage(pos, len) < f.cache.slots.Length
    modifies f`currpos, f`log, f.cache.slots
    ensures f.Valid()
    ensures multi == (LastPage(pos, len) > pos / PageSize)
    ensures Loaded(f.cache.slots, pos / PageSize, LastPage(pos, len))
    ensures Trace(f.log, f.currpos) ==
              LoadTrace(old(Residency(f.cache.slots[..])), Trace(old(f.log), old(f.currpos)),
                        pos / PageSize, LastPage(pos, len) + 1)
  {
    multi := false;
    var offset := pos % PageSize;
    var amtread := PageSize - offset;
    var startnum := pos / PageSize;
    var bufnum := startnum;
    var slots := f.cache.slots;
    ghost var last := LastPage(pos, len);
    ghost var res0 := Residency(slots[..]);
    ghost var t0 := Trace(f.log, f.currpos);
    while true
      invariant startnum <= bufnum <= last
      invariant amtread == (bufnum + 1) * PageSize - pos
      invariant bufnum > startnum ==> amtread - PageSize < len
      invariant multi == (bufnum > startnum)
      invariant f.Valid()
      invariant forall i :: 0 <= i < slots.Length ==>
                  if startnum <= i < bufnum then slots[i].Some? && (old(slots[i]).Some? ==> slots[i] == old(slots[i]))
                  else slots[i] == old(slots[i])
      invariant Trace(f.log, f.currpos) == LoadTrace(res0, t0, startnum, bufnum)
      decreases last - bufnum
    {
      LoadPage(f, bufnum);
      if amtread >= len {
        break;
      }
      amtread := amtread + PageSize;
      bufnum := bufnum + 1;
      multi := true;
    }
  }

  /** memcpy of n bytes from src[from..] into dst[at..]. */
  method MemCopy(dst: array<byte>, at: nat, src: seq<byte>, from: nat, n: nat)
    requires at + n <= dst.Length && from + n <= |src|
    modifies dst
    ensures dst[at..at + n] == src[from..from + n]
    ensures forall k :: 0 <= k < dst.Length && !(at <= k < at + n) ==> dst[k] == old(dst[k])
  {
    forall k | at <= k < at + n {
      dst[k] := src[from + k - at];
    }
  }

  /** Appending a piece of page i that starts at the file offset the
      assembled bytes have reached keeps them in agreement with the file. */
  lemma AgreesExtend(b: seq<byte>, disk: seq<byte>, pos: nat, page: seq<byte>, i: nat, from: nat, n: nat)
    requires Agrees(b, disk, pos)
    requires PageHolds(page, disk, i) && from + n <= |page|
    requires pos + |b| == i * PageSize + from
    ensures Agrees(b + page[from..from + n], disk, pos)
  {
  }

  /** memcpy of n bytes of page i, from offset `from` within it, to the
      point `at` that the bytes assembled from file offset pos have reached:
      the assembled prefix keeps agreeing with the file. */
  method CopyPiece(dst: array<byte>, at: nat, disk: seq<byte>, pos: nat, page: seq<byte>, i: nat, from: nat, n: nat)
    requires at + n <= dst.Length && Agrees(dst[..at], disk, pos)
    requires PageHolds(page, disk, i) && from + n <= |page|
    requires pos + at == i * PageSize + from
    modifies dst
    ensures Agrees(dst[..at + n], disk, pos)
  {
    ghost var before := dst[..at];
    MemCopy(dst, at, page, from, n);
    AgreesExtend(before, disk, pos, page, i, from, n);
    assert dst[..at + n] == before + page[from..from + n];
  }

  /** The process-wide statics of the cache: Multipage, TokBuff, TokSize. */
  class ObjCache {
    /** Multipage: the last paged read was assembled in TokBuff. */
    var multipage: bool
    var tokBuff: array<byte>
    var tokSize: nat
    /** Where the last paged read's pointer pointed. */
    ghost var lastPaged: Option<Region>
    /** Buffers handed out by CachePermRead and not yet released. */
    ghost var owned: set<array<byte>>

    ghost predicate Valid()
      reads this
    {
      tokBuff.Length == tokSize &&
      (multipage <==> lastPaged == Some(Scratch)) &&
      tokBuff !in owned
    }

    constructor (size: nat)
      ensures Valid() && fresh(tokBuff)
      ensures tokSize == size && !multipage && lastPaged == None && owned == {}
    {
      multipage := false;
      tokBuff := new byte[size];
      tokSize := size;
      lastPaged := None;
      owned := {};
    }

    /** CacheIsPerm: the last paged read did not return the scratch buffer. */
    function CacheIsPerm(): (perm: bool)
      reads this
      requires Valid()
      ensures perm <==> lastPaged != Some(Scratch)
    {
      !multipage
    }

    /** Grows TokBuff to a whole number of sectors when it cannot hold
        `len` bytes; its old contents are not kept. */
    method Reserve(len: nat)
      requires Valid()
      modifies this`tokBuff, this`tokSize
      ensures Valid() && if len > old(tokSize) then fresh(tokBuff) else tokBuff == old(tokBuff)
      ensures tokSize == (if len > old(tokSize) then RoundUpToSector(len) else old(tokSize))
      ensures len <= tokSize
    {
      if len > tokSize {
        tokSize := RoundUpToSector(len);
        tokBuff := new byte[tokSize];
      }
    }

    /** Copies a multi-page read into TokBuff, growing it first if it is
        too small (the multi-page branch of CacheRead). */
    method Assemble(f: InFile, pos: nat, len: nat)
      requires Valid() && f.Valid() && f.cache.Paged?
      requires LastPage(pos, len) > pos / PageSize && LastPage(pos, len) < f.cache.slots.Length
      requires forall i :: pos / PageSize <= i <= LastPage(pos, len) ==> f.cache.slots[i].Some?
      modifies this`tokBuff, this`tokSize, tokBuff
      ensures Valid() && if len > old(tokSize) then fresh(tokBuff) else tokBuff == old(tokBuff)
      ensures tokSize == (if len > old(tokSize) then RoundUpToSector(len) else old(tokSize))
      ensures len <= tokSize && Agrees(tokBuff[..len], f.disk, pos)
    {
      var slots := f.cache.slots;
      var startnum := pos / PageSize;
      var offset := pos % PageSize;
      ghost var last := LastPage(pos, len);
      Reserve(len);
      var buf := tokBuff;
      var amtread := PageSize - offset;
      assert forall i :: startnum <= i <= last ==>
               slots[i].Some? && PageHolds(slots[i].value, f.disk, i);
      CopyPiece(buf, 0, f.disk, pos, slots[startnum].value, startnum, offset, amtread);
      var left := len - amtread;
      var at := amtread;
      while true
        invariant startnum < last
        invariant at == (startnum + 1) * PageSize - pos
        invariant at + left == len && left > 0 && len <= buf.Length
        invariant Agrees(buf[..at], f.disk, pos)
        invariant forall i :: startnum < i <= last ==>
                    slots[i].Some? && PageHolds(slots[i].value, f.disk, i)
        modifies buf
        decreases left
      {
        startnum := startnum + 1;
        if left <= PageSize {
          CopyPiece(buf, at, f.disk, pos, slots[startnum].value, startnum, 0, left);
          assert buf[..at + left] == buf[..len];
          break;
        }
        CopyPiece(buf, at, f.disk, pos, slots[startnum].value, startnum, 0, PageSize);
        left := left - PageSize;
        at := at + PageSize;
      }
    }

    /** Reads `len` bytes at `pos` of file f. */
    method CacheRead(f: InFile, pos: nat, len: nat) returns (r: View)
      requires Valid() && f.Valid() && ReadAllowed(f, pos, len)
      modifies this, tokBuff, f`currpos, f`log, f.Footprint() - {f}
      ensures Valid() && f.Valid() && owned == old(owned)
      ensures old(f.fullCache) ==>
                r == (if pos + len > f.len then NullView else View(WholeFile, pos, f.disk[pos..pos + len])) &&
                unchanged(this, f) && unchanged(tokBuff)
      ensures !old(f.fullCache) ==>
                Loaded(f.cache.slots, pos / PageSize, LastPage(pos, len)) &&
                Trace(f.log, f.currpos) ==
                  LoadTrace(old(Residency(f.cache.slots[..])), Trace(old(f.log), old(f.currpos)),
                            pos / PageSize, LastPage(pos, len) + 1)
      ensures !old(f.fullCache) ==>
                r.View? && |r.bytes| == len && Agrees(r.bytes, f.disk, pos) &&
                multipage == (LastPage(pos, len) > pos / PageSize) &&
                lastPaged == Some(r.region)
      ensures !old(f.fullCache) && LastPage(pos, len) == pos / PageSize ==>
                r == View(Page(pos / PageSize), pos % PageSize,
                          f.cache.slots[pos / PageSize].value[pos % PageSize..pos % PageSize + len]) &&
                tokBuff == old(tokBuff) && tokSize == old(tokSize) && unchanged(tokBuff)
      ensures !old(f.fullCache) && LastPage(pos, len) > pos / PageSize ==>
                tokSize == (if len > old(tokSize) then RoundUpToSector(len) else old(tokSize)) &&
                (if len > old(tokSize) then fresh(tokBuff) else tokBuff == old(tokBuff)) &&
                r == View(Scratch, 0, tokBuff[..len])
    {
      if f.fullCache {
        if pos + len > f.len {
          return NullView;
        }
        return View(WholeFile, pos, f.cache.buf[pos..pos + len]);
      }
      var spans := LoadPages(f, pos, len);
      var startnum := pos / PageSize;
      if !spans {
        var offset := pos % PageSize;
        r := View(Page(startnum), offset, f.cache.slots[startnum].value[offset..offset + len]);
      } else {
        Assemble(f, pos, len);
        r := View(Scratch, 0, tokBuff[..len]);
      }
      multipage := spans;
      lastPaged := Some(r.region);
    }

    /** Reads `len` bytes at `pos` of file f into memory that outlives
        later reads: in full-cache mode the pointer into the file's buffer,
        otherwise a buffer of the caller's, released with CacheFree. For a
        read assembled in TokBuff, the caller gets a fresh copy of TokBuff's
        first `len` bytes (the realloc of TokBuff to `len` bytes) and TokBuff
        is replaced by a new buffer of TokSize bytes. */
    method CachePermRead(f: InFile, pos: nat, len: nat) returns (p: PermBuf)
      requires Valid() && f.Valid() && ReadAllowed(f, pos, len)
      modifies this, tokBuff, f`currpos, f`log, f.Footprint() - {f}
      ensures Valid() && f.Valid()
      ensures old(f.fullCache) ==>
                p == Borrowed(if pos + len > f.len then NullView else View(WholeFile, pos, f.disk[pos..pos + len])) &&
                unchanged(this, f) && unchanged(tokBuff)
      ensures !old(f.fullCache) ==>
                p.Owned? && fresh(p.buf) && p.buf.Length == len && Agrees(p.buf[..], f.disk, pos) &&
                owned == old(owned) + {p.buf} && CacheIsPerm() && p.buf != tokBuff
      ensures !old(f.fullCache) ==>
                Loaded(f.cache.slots, pos / PageSize, LastPage(pos, len)) &&
                Trace(f.log, f.currpos) ==
                  LoadTrace(old(Residency(f.cache.slots[..])), Trace(old(f.log), old(f.currpos)),
                            pos / PageSize, LastPage(pos, len) + 1)
      ensures !old(f.fullCache) && LastPage(pos, len) > pos / PageSize ==>
                fresh(tokBuff) && tokSize == (if len > old(tokSize) then RoundUpToSector(len) else old(tokSize)) &&
                lastPaged == Some(CallerOwned)
      ensures !old(f.fullCache) && LastPage(pos, len) == pos / PageSize ==>
                tokBuff == old(tokBuff) && tokSize == old(tokSize) && unchanged(tokBuff) &&
                lastPaged == Some(Page(pos / PageSize))
    {
      var r := CacheRead(f, pos, len);
      if f.fullCache {
        return Borrowed(r);
      }
      var result := new byte[len];
      MemCopy(result, 0, r.bytes, 0, len);
      assert result[..] == r.bytes;
      if multipage {
        tokBuff := new byte[tokSize];
        multipage := false;
        lastPaged := Some(CallerOwned);
      }
      owned := owned + {result};
      p := Owned(result);
    }

    /** Releases memory returned by CachePermRead; only paged files hand
        out memory of the caller's. */
    method CacheFree(f: InFile, mem: PermBuf)
      requires Valid()
      modifies this`owned
      ensures Valid()
      ensures owned == (if f.pageCache && mem.Owned? then old(owned) - {mem.buf} else old(owned))
    {
      if f.pageCache {
        if mem.Owned? {
          owned := owned - {mem.buf};
        }
      }
    }
  }
}
