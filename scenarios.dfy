/** Scenarios of the cache on small files, each stating what the
    operations promise in that scenario. */
module CacheScenarios {
  import opened CachePages
  import opened MixCache

  /** File contents used by the scenarios: byte k is k mod 256. */
  function Pattern(n: nat): (s: seq<byte>)
    ensures |s| == n
    ensures forall k :: 0 <= k < n ==> s[k] == (k % 256) as byte
  {
    seq(n, k requires 0 <= k < n => (k % 256) as byte)
  }

  /** A library opened with no caching flag is paged. A read of 9000 bytes
      at offset 8000 touches pages 0, 1 and 2, reads them in order without
      a seek, and is assembled in the scratch buffer, so it is not
      permanent. */
  method LibrarySpanningRead() returns (r: View, perm: bool, ghost ops: seq<IoOp>)
    ensures r == View(Scratch, 0, Pattern(20000)[8000..17000])
    ensures !perm
    ensures ops == [Read(0, PageSize), Read(PageSize, PageSize), Read(2 * PageSize, PageSize)]
  {
    var f := new InFile(Pattern(20000), true, 0);
    var c := new ObjCache(0);
    var ok := CacheOpen(f, LinkFlags(false, false), true);
    assert f.log == [] && f.currpos == 0;
    InFileReadInRange(f.len, 8000, 9000);
    ghost var res := Residency(f.cache.slots[..]);
    assert res == [false, false, false];
    r := c.CacheRead(f, 8000, 9000);
    AgreesInsideIsSlice(r.bytes, f.disk, 8000);
    perm := c.CacheIsPerm();
    ops := f.log;
  }

  /** An object file opened with no caching flag is read whole, once; a read
      inside it points into the whole-file buffer, a read past its end
      yields no pointer, and neither changes whether the last read was
      permanent. */
  method FullCacheReads() returns (r1: View, r2: View, perm: bool, ghost ops: seq<IoOp>)
    ensures r1 == View(WholeFile, 100, Pattern(500)[100..150])
    ensures r2 == NullView
    ensures perm
    ensures ops == [Read(0, 500)]
  {
    var f := new InFile(Pattern(500), false, 0);
    var c := new ObjCache(0);
    var ok := CacheOpen(f, LinkFlags(false, false), true);
    r1 := c.CacheRead(f, 100, 50);
    r2 := c.CacheRead(f, 490, 20);
    perm := c.CacheIsPerm();
    ops := f.log;
  }

  /** Opening a file a second time neither changes its mode nor reads it
      again. */
  method OpenTwice() returns (full: bool, ghost ops: seq<IoOp>)
    ensures full
    ensures ops == [Read(0, 500)]
  {
    var f := new InFile(Pattern(500), false, 500);
    var ok := CacheOpen(f, LinkFlags(false, false), true);
    ok := CacheOpen(f, LinkFlags(false, true), true);
    full := f.fullCache;
    ops := f.log;
  }

  /** A spanning read through CachePermRead is permanent, and the buffer
      it returns keeps its bytes while a later spanning read, small enough
      not to grow the scratch buffer, reuses the TokBuff CachePermRead left. */
  method PermReadSurvives() returns (kept: seq<byte>, perm: bool, reused: bool)
    ensures kept == Pattern(20000)[8000..17000]
    ensures perm && reused
  {
    var f := new InFile(Pattern(20000), true, 0);
    var c := new ObjCache(0);
    var ok := CacheOpen(f, LinkFlags(false, false), true);
    InFileReadInRange(f.len, 8000, 9000);
    var p := c.CachePermRead(f, 8000, 9000);
    perm := c.CacheIsPerm();
    AgreesInsideIsSlice(p.buf[..], f.disk, 8000);
    ghost var saved := p.buf[..];
    var scratch := c.tokBuff;
    InFileReadInRange(f.len, 8000, 1000);
    var r := c.CacheRead(f, 8000, 1000);
    assert p.buf[..] == saved;
    reused := c.tokBuff == scratch;
    kept := p.buf[..];
    c.CacheFree(f, p);
  }

  /** Closing a library on pass 1 keeps the slot at the handle position,
      which after loading page 0 is page 1: page 0 itself is freed. */
  method PassOneKeepsPageAfterLastLoaded() returns (page0: bool)
    ensures !page0
  {
    var f := new InFile(Pattern(20000), true, 0);
    var c := new ObjCache(0);
    var ok := CacheOpen(f, LinkFlags(false, false), true);
    InFileReadInRange(f.len, 0, 100);
    var r := c.CacheRead(f, 0, 100);
    assert f.currpos == PageSize;
    CacheClose(f, 1);
    page0 := f.cache.slots[0].Some?;
  }

  /** A freshly opened library whose page 0 has been read. */
  method LibraryWithPageZero() returns (f: InFile)
    ensures fresh(f) && f.Valid() && f.pageCache && f.cache.Paged? && fresh(f.cache.slots)
    ensures f.cache.slots.Length > 0 && f.cache.slots[0].Some?
  {
    f := new InFile(Pattern(20000), true, 0);
    var c := new ObjCache(0);
    var ok := CacheOpen(f, LinkFlags(false, false), true);
    InFileReadInRange(20000, 0, 100);
    var r := c.CacheRead(f, 0, 100);
  }

  /** The sweep passes over the current module's source even though it
      has a resident page, and frees the pages of the next paged file. */
  method SweepSkipsCurrent() returns (freed: bool, currentKeeps: bool, otherKeeps: bool)
    ensures freed && currentKeeps && !otherKeeps
  {
    var f1 := LibraryWithPageZero();
    var f2 := LibraryWithPageZero();
    var files := [f1, f2];
    assert Registry(files);
    assert Victim(files[1], f1) && files[0] == f1;
    ghost var victim;
    freed, victim := DumpObjCache(files, f1);
    assert freed;
    assert files[victim] != f1;
    assert victim == 1;
    currentKeeps := f1.cache.slots[0].Some?;
    otherKeeps := f2.cache.slots[0].Some?;
  }
}
