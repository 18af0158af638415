/**
 Content population (`fetch_page_data`) and fault resolution
 (`vm_try_handle_fault`) from vm/page.c, over the frame pool, the
 supplemental page table and the hardware page directory.
 */
module PageFault {
  import opened Types
  import opened Frames
  import opened Files
  import opened PageTable

  /** The source never checks that a file page's two byte counts fit in one
      page; the model asks it of its callers. */
  predicate WellFormed(p: Page)
  {
    p.kind.PageFile? ==> p.readBytes + p.zeroBytes <= PGSIZE
  }

  /** Whether populating a frame for `p` succeeds: always for a zero page,
      for a file page when the read is not short, never otherwise (swap-in is
      not implemented). */
  predicate Fetchable(p: Page)
  {
    match p.kind
    case PageZero => true
    case PageFile => |ReadAt(p.file, p.fileOffset, p.readBytes)| == p.readBytes
    case PageSwap => false
    case OutOfRange(_) => false
  }

  /** The bytes of a frame after populating it for `p`, given its bytes
      `before`. A file read that comes back short still leaves the bytes it
      delivered; bytes past `readBytes + zeroBytes` keep what they held. */
  function Fetched(p: Page, before: seq<byte>): (after: seq<byte>)
    requires |before| == PGSIZE && WellFormed(p)
    ensures |after| == PGSIZE
  {
    match p.kind
    case PageZero => seq(PGSIZE, k => 0)
    case PageFile =>
      var r := ReadAt(p.file, p.fileOffset, p.readBytes);
      seq(PGSIZE, k requires 0 <= k < PGSIZE =>
            if k < |r| then r[k]
            else if |r| == p.readBytes && k < p.readBytes + p.zeroBytes then 0
            else before[k])
    case PageSwap => before
    case OutOfRange(_) => before
  }

  /** A zero page is populated with a frame of zeros. */
  lemma ZeroPageIsZero(p: Page, before: seq<byte>)
    requires |before| == PGSIZE && p.kind.PageZero?
    ensures Fetchable(p)
    ensures forall k :: 0 <= k < PGSIZE ==> Fetched(p, before)[k] == 0
  {
  }

  /** A file page fails to populate exactly when the read comes back short,
      that is when the requested bytes run past the end of the file. */
  lemma FilePageFetchableIff(p: Page)
    requires p.kind.PageFile?
    ensures Fetchable(p) <==> p.readBytes == 0 || p.fileOffset + p.readBytes <= |p.file|
  {
    ShortReadIff(p.file, p.fileOffset, p.readBytes);
  }

  /** A populated file page holds the file's bytes at `fileOffset`, then
      `zeroBytes` zeros, then whatever the frame held before. */
  lemma FilePageLayout(p: Page, before: seq<byte>)
    requires |before| == PGSIZE && WellFormed(p) && p.kind.PageFile? && Fetchable(p)
    ensures p.fileOffset + p.readBytes <= |p.file| || p.readBytes == 0
    ensures forall k :: 0 <= k < p.readBytes ==> Fetched(p, before)[k] == p.file[p.fileOffset + k]
    ensures forall k :: p.readBytes <= k < p.readBytes + p.zeroBytes ==> Fetched(p, before)[k] == 0
    ensures forall k :: p.readBytes + p.zeroBytes <= k < PGSIZE ==> Fetched(p, before)[k] == before[k]
  {
  }

  /** A swap page, or a type outside the enum, never populates and leaves the
      frame alone. */
  lemma OtherPagesFail(p: Page, before: seq<byte>)
    requires |before| == PGSIZE && (p.kind.PageSwap? || p.kind.OutOfRange?)
    ensures !Fetchable(p) && Fetched(p, before) == before
  {
  }

  /** `memset(a + from, 0, count)`. */
  method ZeroFill(a: array<byte>, from: nat, count: nat)
    requires from + count <= a.Length
    modifies a
    ensures forall k :: from <= k < from + count ==> a[k] == 0
    ensures forall k :: 0 <= k < a.Length && !(from <= k < from + count) ==> a[k] == old(a[k])
  {
    var i := from;
    while i < from + count
      invariant from <= i <= from + count
      invariant forall k :: from <= k < i ==> a[k] == 0
      invariant forall k :: 0 <= k < a.Length && !(from <= k < i) ==> a[k] == old(a[k])
    {
      a[i] := 0;
      i := i + 1;
    }
  }

  /** `fetch_page_data(p, frame)`: fills the page at `mem[base..]` in place,
      dispatching on the page type. */
  method FetchPageData(p: Page, mem: array<byte>, base: nat) returns (ok: bool)
    requires WellFormed(p) && base + PGSIZE <= mem.Length
    modifies mem
    ensures ok == Fetchable(p)
    ensures mem[base .. base + PGSIZE] == Fetched(p, old(mem[base .. base + PGSIZE]))
    ensures forall k :: 0 <= k < mem.Length && !(base <= k < base + PGSIZE) ==> mem[k] == old(mem[k])
  {
    ghost var before := mem[base .. base + PGSIZE];
    match p.kind {
      case PageZero =>
        ZeroFill(mem, base, PGSIZE);
        ok := true;
      case PageFile =>
        var n := FileReadAt(p.file, mem, base, p.readBytes, p.fileOffset);
        if n != p.readBytes {
          ok := false;
        } else {
          ZeroFill(mem, base + p.readBytes, p.zeroBytes);
          ok := true;
        }
      case PageSwap =>
        // swap-in is not implemented
        ok := false;
      case OutOfRange(_) =>
        ok := false;
    }
    assert forall k :: 0 <= k < PGSIZE ==> mem[base + k] == Fetched(p, before)[k];
  }

  /** The page directory of the faulting process: user address to frame and
      writable bit. */
  class PageDirectory {
    var mappings: map<VA, (Frame, bool)>

    constructor ()
      ensures mappings == map[]
    {
      mappings := map[];
    }

    /** `pagedir_set_page`: installs the mapping unless the directory cannot
        allocate the page table it needs; `succeeds` is that outcome. */
    method SetPage(va: VA, f: Frame, writable: bool, succeeds: bool) returns (ok: bool)
      modifies this
      ensures ok == succeeds
      ensures mappings == if ok then old(mappings)[va := (f, writable)] else old(mappings)
    {
      ok := succeeds;
      if ok {
        mappings := mappings[va := (f, writable)];
      }
    }
  }

  /** `vm_try_handle_fault`: look the page up, check the access, allocate a
      frame, populate it, install it, and only then record it in the page.
      Every failure after the allocation returns the frame to the pool.
      `installSucceeds` is the outcome of `pagedir_set_page`. */
  method TryHandleFault(spt: SupplementalPageTable, pool: FramePool, pd: PageDirectory,
                        faultAddr: VA, write: bool, installSucceeds: bool) returns (ok: bool)
    requires spt.Valid() && pool.Valid()
    requires faultAddr in spt.pages ==> WellFormed(spt.pages[faultAddr])
    modifies spt, pool, pool.mem, pd
    ensures spt.Valid() && pool.Valid()
    // the one-owner invariant is kept when it held before
    ensures old(FramesOwned(spt.pages, pool.inUse)) ==> FramesOwned(spt.pages, pool.inUse)
    // no page, or a write to a read-only page: rejected before any allocation
    ensures faultAddr !in old(spt.pages) ==> !ok && unchanged(spt, pool, pool.mem, pd)
    ensures faultAddr in old(spt.pages) && write && !old(spt.pages[faultAddr].writable) ==>
              !ok && unchanged(spt, pool, pool.mem, pd)
    ensures ok <==> faultAddr in old(spt.pages) && (!write || old(spt.pages[faultAddr].writable)) &&
                    old(pool.NextFree()).Some? && Fetchable(old(spt.pages[faultAddr])) && installSucceeds
    // any failure: no frame leaked, no mapping installed, no page changed
    ensures !ok ==> pool.inUse == old(pool.inUse) && spt.pages == old(spt.pages) && pd.mappings == old(pd.mappings)
    // success: the lowest free frame is taken, populated, installed and committed
    ensures ok ==>
              var f := old(pool.NextFree()).value;
              var p := old(spt.pages[faultAddr]);
              f !in old(pool.inUse) &&
              pool.inUse == old(pool.inUse) + {f} &&
              pool.mem[Base(f) .. Base(f) + PGSIZE] == Fetched(p, old(pool.mem[Base(f) .. Base(f) + PGSIZE])) &&
              pd.mappings == old(pd.mappings)[faultAddr := (f, p.writable)] &&
              spt.pages == old(spt.pages)[faultAddr := p.(frame := Some(f))]
    // only the page of the frame the allocation would hand out may be written
    ensures old(pool.NextFree()).Some? ==>
              forall k :: 0 <= k < pool.mem.Length && k / PGSIZE != old(pool.NextFree()).value ==>
                pool.mem[k] == old(pool.mem[k])
    ensures old(pool.NextFree()).None? ==> unchanged(pool.mem)
    // in particular the memory of frames that were already in use is never written
    ensures forall k :: 0 <= k < pool.mem.Length && k / PGSIZE in old(pool.inUse) ==> pool.mem[k] == old(pool.mem[k])
  {
    var found := spt.Find(faultAddr);
    if found.None? {
      return false;
    }
    var p := found.value;
    if !p.writable && write {
      return false;
    }
    var frame := pool.Allocate();
    if frame.None? {
      return false;
    }
    var f := frame.value;
    ok := FetchPageData(p, pool.mem, Base(f));
    forall k | 0 <= k < pool.mem.Length && k / PGSIZE != f
      ensures pool.mem[k] == old(pool.mem[k])
    {
      BaseOwnsPage(f, k);
    }
    if !ok {
      pool.Free(f);
      return false;
    }
    ok := pd.SetPage(faultAddr, f, p.writable, installSucceeds);
    if !ok {
      pool.Free(f);
      return false;
    }
    // p->frame = frame; a page that was already resident loses (leaks) its
    // previous frame here
    spt.pages := spt.pages[faultAddr := p.(frame := Some(f))];
  }
}
