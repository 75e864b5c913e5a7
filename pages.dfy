/** Page arithmetic, the I/O layer seen by the cache, and the trace of I/O
    operations that loading pages produces. Everything here is pure; the
    stateful cache lives in module MixCache. */
module CachePages {

  newtype byte = x: int | 0 <= x < 256

  datatype Option<T> = None | Some(value: T)

  /** CACHE_PAGE_SIZE: the unit of paged caching. */
  const PageSize: nat := 8192

  /** SECTOR_SIZE: the granularity the scratch buffer grows by. Its
      definition lives in a header outside this model; only its
      positivity is used. */
  const SectorSize: nat := 512

  /** Number of page slots a file of `len` bytes needs: the smallest n
      with n * PageSize >= len. */
  function NumCacheBlocks(len: nat): (n: nat)
    ensures n * PageSize >= len
    ensures n > 0 ==> (n - 1) * PageSize < len
  {
    var numblocks := len / PageSize;
    if len % PageSize != 0 then numblocks + 1 else numblocks
  }

  /** NumCacheBlocks is the least page count covering the file. */
  lemma NumCacheBlocksLeast(len: nat, m: nat)
    requires m * PageSize >= len
    ensures NumCacheBlocks(len) <= m
  {
  }

  /** Index of the page holding the last byte a read of `len` bytes at
      `pos` touches; a read of zero bytes still touches the page of `pos`. */
  function LastPage(pos: nat, len: nat): (p: nat)
    ensures p >= pos / PageSize
    ensures p * PageSize <= pos + (if len == 0 then 1 else len) - 1 < (p + 1) * PageSize
    ensures p == pos / PageSize <==> pos % PageSize + len <= PageSize
  {
    (pos + (if len == 0 then 1 else len) - 1) / PageSize
  }

  /** Every read that lies inside the file, and is not an empty read at
      the very end, stays inside the page table. */
  lemma InFileReadInRange(flen: nat, pos: nat, len: nat)
    requires pos + len <= flen && pos < flen
    ensures LastPage(pos, len) < NumCacheBlocks(flen)
  {
  }

  /** An empty read at the end of a file whose length is a whole number of
      pages indexes one slot past the page table. */
  lemma EmptyReadAtAlignedEndOutOfRange(flen: nat)
    requires flen % PageSize == 0
    ensures LastPage(flen, 0) == NumCacheBlocks(flen)
  {
  }

  /** ROUND_UP(n, SECTOR_SIZE): n rounded up to a whole number of sectors. */
  function RoundUpToSector(n: nat): (r: nat)
    ensures r % SectorSize == 0
    ensures n <= r < n + SectorSize
  {
    if n % SectorSize == 0 then n else n + (SectorSize - n % SectorSize)
  }

  /** The bytes `b` agree with the file `disk` read from offset `at`,
      wherever the file has a byte. */
  ghost predicate Agrees(b: seq<byte>, disk: seq<byte>, at: nat)
  {
    forall k :: 0 <= k < |b| && at + k < |disk| ==> b[k] == disk[at + k]
  }

  /** A resident page `i` is a full page buffer holding the file's bytes
      from offset i * PageSize on. */
  ghost predicate PageHolds(page: seq<byte>, disk: seq<byte>, i: nat)
  {
    |page| == PageSize && Agrees(page, disk, i * PageSize)
  }

  /** QRead of `n` bytes at offset `at`: what lies past the end of the file
      is not specified by the contract (the body pads with zeros). */
  function DiskRead(disk: seq<byte>, at: nat, n: nat): (b: seq<byte>)
    ensures |b| == n && Agrees(b, disk, at)
    ensures at + n <= |disk| ==> b == disk[at..at + n]
  {
    seq(n, k requires 0 <= k < n => if at + k < |disk| then disk[at + k] else 0)
  }

  /** A bounded read that agrees with the file is exactly a slice of it. */
  lemma AgreesInsideIsSlice(b: seq<byte>, disk: seq<byte>, at: nat)
    requires Agrees(b, disk, at) && at + |b| <= |disk|
    ensures b == disk[at..at + |b|]
  {
  }

  /** Operations issued on a file handle. */
  datatype IoOp = Seek(to: nat) | Read(at: nat, count: nat) | Close

  /** The operations issued so far and the tracked handle position. */
  datatype Trace = Trace(ops: seq<IoOp>, pos: nat)

  /** Making page `i` resident: nothing if it already is, otherwise a seek
      when the tracked position is not the page's offset, then one read of
      a full page, leaving the position just past that page. */
  function LoadStep(t: Trace, resident: bool, i: nat): Trace
  {
    if resident then t
    else
      var start := i * PageSize;
      Trace(t.ops + (if t.pos != start then [Seek(start)] else []) + [Read(start, PageSize)],
            start + PageSize)
  }

  /** Making pages lo .. hi-1 resident in order, given which were resident. */
  function LoadTrace(res: seq<bool>, t: Trace, lo: nat, hi: nat): Trace
    requires lo <= hi <= |res|
    decreases hi - lo
  {
    if hi == lo then t else LoadStep(LoadTrace(res, t, lo, hi - 1), res[hi - 1], hi - 1)
  }

  /** Which slots of a page table hold a page. */
  ghost function Residency(slots: seq<Option<seq<byte>>>): (res: seq<bool>)
    ensures |res| == |slots|
    ensures forall k :: 0 <= k < |slots| ==> res[k] == slots[k].Some?
  {
    seq(|slots|, k requires 0 <= k < |slots| => slots[k].Some?)
  }

  /** Reading pages that are all resident issues no I/O and leaves the
      tracked position where it was. */
  lemma {:induction false} ResidentReadNoIo(res: seq<bool>, t: Trace, lo: nat, hi: nat)
    requires lo <= hi <= |res|
    requires forall k :: lo <= k < hi ==> res[k]
    ensures LoadTrace(res, t, lo, hi) == t
    decreases hi - lo
  {
    if hi > lo {
      ResidentReadNoIo(res, t, lo, hi - 1);
    }
  }

  /** Loading only extends the operation log. */
  lemma {:induction false} LoadTraceExtends(res: seq<bool>, t: Trace, lo: nat, hi: nat)
    requires lo <= hi <= |res|
    ensures t.ops <= LoadTrace(res, t, lo, hi).ops
    decreases hi - lo
  {
    if hi > lo {
      LoadTraceExtends(res, t, lo, hi - 1);
    }
  }

  /** Each page of the range is read from the file exactly when it was not
      resident, and no page outside the range is read. */
  lemma {:induction false} LoadTraceReadsMissing(res: seq<bool>, t: Trace, lo: nat, hi: nat, k: nat)
    requires lo <= hi <= |res|
    ensures var u := LoadTrace(res, t, lo, hi);
            t.ops <= u.ops &&
            (Read(k * PageSize, PageSize) in u.ops[|t.ops|..] <==> lo <= k < hi && !res[k])
    decreases hi - lo
  {
    LoadTraceExtends(res, t, lo, hi);
    if hi > lo {
      var v := LoadTrace(res, t, lo, hi - 1);
      LoadTraceReadsMissing(res, t, lo, hi - 1, k);
      LoadTraceExtends(res, t, lo, hi - 1);
      var u := LoadStep(v, res[hi - 1], hi - 1);
      if !res[hi - 1] {
        var start := (hi - 1) * PageSize;
        var added := (if v.pos != start then [Seek(start)] else []) + [Read(start, PageSize)];
        assert u.ops == v.ops + added;
        assert u.ops[|t.ops|..] == v.ops[|t.ops|..] + added;
        assert Read(k * PageSize, PageSize) in added <==> k == hi - 1;
      }
    }
  }

  /** A sequential scan over pages none of which is resident, starting
      with the handle already at the first page, issues no seek at all:
      one read per page, and the handle ends just past the range. */
  lemma {:induction false} SequentialScanNoSeek(res: seq<bool>, t: Trace, lo: nat, hi: nat)
    requires lo <= hi <= |res|
    requires t.pos == lo * PageSize
    requires forall k :: lo <= k < hi ==> !res[k]
    ensures var u := LoadTrace(res, t, lo, hi);
            u.pos == hi * PageSize &&
            |u.ops| == |t.ops| + (hi - lo) &&
            t.ops <= u.ops &&
            forall j :: |t.ops| <= j < |u.ops| ==> u.ops[j].Read?
    decreases hi - lo
  {
    if hi > lo {
      SequentialScanNoSeek(res, t, lo, hi - 1);
    }
  }

  /** After a read that loaded at least one page, the tracked position is
      the start of the page after the last page loaded. */
  lemma {:induction false} PositionAfterLastLoad(res: seq<bool>, t: Trace, lo: nat, hi: nat, j: nat)
    requires lo <= j < hi <= |res|
    requires !res[j]
    requires forall k :: j < k < hi ==> res[k]
    ensures LoadTrace(res, t, lo, hi).pos == (j + 1) * PageSize
    ensures LoadTrace(res, t, lo, hi).pos / PageSize == j + 1
    decreases hi - lo
  {
    if hi - 1 > j {
      PositionAfterLastLoad(res, t, lo, hi - 1, j);
    }
  }
}
