/**
 A client of the model: a process with one file-backed page faults it in.
 What it can conclude follows from the contracts above alone.
 */
module Scenario {
  import opened Types
  import opened Frames
  import opened PageTable
  import opened PageFault

  /** A table with one writable file page at 0x1000 reading a ten-byte file
      from offset 0, padded with zeros to the end of the page. A write fault at
      0x1000 succeeds, the frame holds the file's ten bytes followed by zeros,
      and the page is now resident; a fault at an unmapped address fails and
      allocates nothing. */
  method FileFault(file: seq<byte>)
    returns (ok: bool, contents: seq<byte>, resident: bool, unmappedOk: bool, framesAfterUnmapped: set<Frame>)
    requires |file| == 10
    ensures ok && resident
    ensures |contents| == PGSIZE && contents[..10] == file
    ensures forall k :: 10 <= k < PGSIZE ==> contents[k] == 0
    ensures !unmappedOk && framesAfterUnmapped == {0}
  {
    var pool := new FramePool(1);
    var spt := new SupplementalPageTable();
    var pd := new PageDirectory();
    var page := Page(0x1000, None, PageFile, file, 0, 10, PGSIZE - 10, true);
    var inserted := spt.Insert(page);
    ghost var before := pool.mem[0 .. PGSIZE];
    ok := TryHandleFault(spt, pool, pd, 0x1000, true, true);
    contents := pool.mem[0 .. PGSIZE];
    FilePageLayout(page, before);
    var found := spt.Find(0x1000);
    resident := found.Some? && found.value.frame.Some?;
    unmappedOk := TryHandleFault(spt, pool, pd, 0x2000, false, true);
    framesAfterUnmapped := pool.inUse;
  }
}
