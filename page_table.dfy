/**
 The supplemental page table of one process (vm/page.h, vm/page.c): page
 records keyed by virtual address, and the operations that insert, look up,
 duplicate and tear down those records, returning resident frames to the
 frame pool.
 */
module PageTable {
  import opened Types
  import opened Frames

  /** The source of a page's contents (`enum page_type`). A C enum can hold
      values other than its three enumerators, which is what the `default:`
      branch of the content dispatch handles; `OutOfRange` stands for them. */
  datatype PageType = PageZero | PageFile | PageSwap | OutOfRange(tag: int)

  /** `struct page`. The hash element is the hash library's and is left out;
      `kind` is the C field `type`; `file` is the contents of the file the page
      reads from. */
  datatype Page = Page(
    va: VA,
    frame: Option<Frame>,
    kind: PageType,
    file: seq<byte>,
    fileOffset: nat,
    readBytes: nat,
    zeroBytes: nat,
    writable: bool)

  /** `page_less`: pages are ordered by virtual address alone. */
  function PageLess(a: Page, b: Page): bool
  {
    a.va < b.va
  }

  /** The hash table treats two pages as the same element exactly when
      neither is less than the other, that is when their addresses agree; so
      the table is a map keyed by `va`. `page_less` is a strict order. */
  lemma PageLessKeysByVa(a: Page, b: Page, c: Page)
    ensures !PageLess(a, b) && !PageLess(b, a) <==> a.va == b.va
    ensures !PageLess(a, a)
    ensures PageLess(a, b) && PageLess(b, c) ==> PageLess(a, c)
  {
  }

  /** The frame a page holds, as a set (empty when not resident). */
  function FramesOf(p: Page): set<Frame>
  {
    if p.frame.Some? then {p.frame.value} else {}
  }

  /** Every frame held by some page of `m`. */
  function ResidentFrames(m: map<VA, Page>): set<Frame>
  {
    set va | va in m && m[va].frame.Some? :: m[va].frame.value
  }

  /** The one-owner invariant: every resident frame of the table is in use in
      the pool, and no two pages of the table hold the same frame. */
  ghost predicate FramesOwned(m: map<VA, Page>, inUse: set<Frame>)
  {
    (forall va :: va in m && m[va].frame.Some? ==> m[va].frame.value in inUse) &&
    (forall a, b :: a in m && b in m && a != b && m[a].frame.Some? && m[b].frame.Some? ==>
       m[a].frame.value != m[b].frame.value)
  }

  /** Adding or replacing one entry changes the resident frames by that
      entry's frame only. */
  lemma ResidentFramesUpdate(m: map<VA, Page>, va: VA, p: Page)
    ensures ResidentFrames(m[va := p]) == ResidentFrames(m - {va}) + FramesOf(p)
  {
    var lhs, rhs := ResidentFrames(m[va := p]), ResidentFrames(m - {va}) + FramesOf(p);
    forall f | f in lhs ensures f in rhs {
      var k :| k in m[va := p] && m[va := p][k].frame.Some? && m[va := p][k].frame.value == f;
      if k != va {
        assert k in m - {va} && (m - {va})[k] == m[k];
      }
    }
    forall f | f in rhs ensures f in lhs {
      if f in FramesOf(p) {
        assert m[va := p][va] == p;
      } else {
        var k :| k in m - {va} && (m - {va})[k].frame.Some? && (m - {va})[k].frame.value == f;
        assert m[va := p][k] == m[k];
      }
    }
  }

  /** A table whose records are the records of `m` with the frame cleared. */
  function Unshared(m: map<VA, Page>): map<VA, Page>
  {
    map va | va in m :: m[va].(frame := None)
  }

  /** As written, a successful copy of `src` into `dst` yields `dst + src`,
      so any resident page of `src` has its frame held by both tables: the
      two tables are no longer frame-disjoint, and killing both frees that
      frame twice. */
  lemma AliasedCopySharesFrame(dst: map<VA, Page>, src: map<VA, Page>, va: VA)
    requires va in src && src[va].frame.Some?
    requires dst.Keys !! src.Keys
    ensures src[va].frame.value in ResidentFrames(dst + src) * ResidentFrames(src)
    ensures !(ResidentFrames(dst + src) !! ResidentFrames(src))
  {
  }

  /** With the frames cleared, a copy introduces no resident frame: the
      destination keeps its own frames only, stays frame-disjoint from the
      source, and keeps the one-owner invariant. */
  lemma UnsharedCopyOwnsNoFrame(dst: map<VA, Page>, src: map<VA, Page>, inUse: set<Frame>)
    ensures ResidentFrames(dst + Unshared(src)) <= ResidentFrames(dst)
    ensures ResidentFrames(dst) !! ResidentFrames(src) ==>
              ResidentFrames(dst + Unshared(src)) !! ResidentFrames(src)
    ensures FramesOwned(dst, inUse) ==> FramesOwned(dst + Unshared(src), inUse)
  {
  }

  /** `struct supplemental_page_table`: the hash table, keyed by `va`. */
  class SupplementalPageTable {
    var pages: map<VA, Page>

    /** Each record is filed under its own address. */
    ghost predicate Valid()
      reads this
    {
      forall va :: va in pages ==> pages[va].va == va
    }

    /** `supp_page_table_init`: an empty table. */
    constructor ()
      ensures Valid() && pages == map[]
      ensures forall va :: Find(va) == None
    {
      pages := map[];
    }

    /** `spt_find_page`: the page filed under `va`, or NULL. */
    function Find(va: VA): (r: Option<Page>)
      reads this
      requires Valid()
      ensures r.Some? <==> va in pages
      ensures r.Some? ==> r.value == pages[va] && r.value.va == va
    {
      if va in pages then Some(pages[va]) else None
    }

    /** `spt_insert_page`: `hash_insert` adds the page unless one with the same
        address is present, in which case it leaves the table alone and the
        call reports failure. */
    method Insert(p: Page) returns (ok: bool)
      requires Valid()
      modifies this
      ensures Valid()
      ensures ok <==> p.va !in old(pages)
      ensures pages == if ok then old(pages)[p.va := p] else old(pages)
      ensures Find(p.va) == if ok then Some(p) else old(Find(p.va))
      ensures forall va :: va != p.va ==> Find(va) == old(Find(va))
    {
      ok := p.va !in pages;
      if ok {
        pages := pages[p.va := p];
      }
    }

    /** `supplemental_page_table_destroy`: `hash_destroy` with no destructor
        empties the table; the records and their frames are not released. */
    method Destroy()
      modifies this
      ensures Valid() && pages == map[]
    {
      pages := map[];
    }

    /** `copy_page`: `malloc` a record (which may fail), copy the whole source
        record into it, frame reference included, and insert it. When the
        insert fails the new record is leaked; records are values here, so the
        leak has no counterpart in the model. */
    method CopyPage(srcPage: Page, mallocFails: bool) returns (ok: bool)
      requires Valid()
      modifies this
      ensures Valid()
      ensures ok <==> !mallocFails && srcPage.va !in old(pages)
      ensures pages == if ok then old(pages)[srcPage.va := srcPage] else old(pages)
    {
      if mallocFails {
        return false;
      }
      var newPage := srcPage;
      ok := Insert(newPage);
    }

    /** `supplemental_page_table_copy`: copies every record of `src` into this
        table, stopping at the first failed `copy_page`. `mallocFails` is the
        set of addresses whose copy finds `malloc` returning NULL. Entries
        copied before a failure stay; existing entries are never replaced. */
    method Copy(src: SupplementalPageTable, mallocFails: set<VA>) returns (ok: bool)
      requires Valid() && src.Valid() && src != this
      modifies this
      ensures Valid()
      ensures ok <==> src.pages.Keys !! old(pages).Keys && src.pages.Keys !! mallocFails
      ensures ok ==> pages == old(pages) + src.pages
      ensures forall va :: va in old(pages) ==> va in pages && pages[va] == old(pages)[va]
      ensures forall va :: va in pages && va !in old(pages) ==>
                va in src.pages && va !in mallocFails && pages[va] == src.pages[va]
    {
      var todo := src.pages.Keys;
      ghost var done: map<VA, Page> := map[];
      while todo != {}
        invariant Valid() && todo <= src.pages.Keys
        invariant done.Keys == src.pages.Keys - todo
        invariant done.Keys !! old(pages).Keys && done.Keys !! mallocFails
        invariant forall va :: va in done ==> done[va] == src.pages[va]
        invariant pages == old(pages) + done
        decreases todo
      {
        var va :| va in todo;
        ok := CopyPage(src.pages[va], va in mallocFails);
        if !ok {
          return;
        }
        done := done[va := src.pages[va]];
        todo := todo - {va};
      }
      assert done == src.pages;
      return true;
    }

    /** A corrected `copy_page`: the copy starts non-resident, to be faulted
        in again, instead of sharing the source's frame. */
    method CopyPageUnshared(srcPage: Page, mallocFails: bool) returns (ok: bool)
      requires Valid()
      modifies this
      ensures Valid()
      ensures ok <==> !mallocFails && srcPage.va !in old(pages)
      ensures pages == if ok then old(pages)[srcPage.va := srcPage.(frame := None)] else old(pages)
    {
      if mallocFails {
        return false;
      }
      var newPage := srcPage.(frame := None);
      ok := Insert(newPage);
    }

    /** A corrected `supplemental_page_table_copy`, built on
        `CopyPageUnshared`: the same outcome as `Copy`, with every copied
        record non-resident. */
    method CopyUnshared(src: SupplementalPageTable, mallocFails: set<VA>) returns (ok: bool)
      requires Valid() && src.Valid() && src != this
      modifies this
      ensures Valid()
      ensures ok <==> src.pages.Keys !! old(pages).Keys && src.pages.Keys !! mallocFails
      ensures ok ==> pages == old(pages) + Unshared(src.pages)
      ensures forall va :: va in old(pages) ==> va in pages && pages[va] == old(pages)[va]
      ensures forall va :: va in pages && va !in old(pages) ==>
                va in src.pages && va !in mallocFails && pages[va] == src.pages[va].(frame := None)
    {
      var todo := src.pages.Keys;
      ghost var done: map<VA, Page> := map[];
      while todo != {}
        invariant Valid() && todo <= src.pages.Keys
        invariant done.Keys == src.pages.Keys - todo
        invariant done.Keys !! old(pages).Keys && done.Keys !! mallocFails
        invariant forall va :: va in done ==> done[va] == src.pages[va].(frame := None)
        invariant pages == old(pages) + done
        decreases todo
      {
        var va :| va in todo;
        ok := CopyPageUnshared(src.pages[va], va in mallocFails);
        if !ok {
          return;
        }
        done := done[va := src.pages[va].(frame := None)];
        todo := todo - {va};
      }
      assert done == Unshared(src.pages);
      return true;
    }

    /** `supplemental_page_table_kill`: destroys every record, returning each
        resident frame to the pool, then empties the table. */
    method Kill(pool: FramePool)
      requires Valid() && pool.Valid()
      requires FramesOwned(pages, pool.inUse)
      modifies this, pool
      ensures Valid() && pool.Valid()
      ensures pages == map[]
      ensures pool.inUse == old(pool.inUse) - ResidentFrames(old(pages))
    {
      var todo := pages.Keys;
      ghost var done: map<VA, Page> := map[];
      while todo != {}
        invariant pages == old(pages) && todo <= pages.Keys
        invariant done.Keys == pages.Keys - todo
        invariant forall va :: va in done ==> done[va] == pages[va]
        invariant pool.Valid()
        invariant pool.inUse == old(pool.inUse) - ResidentFrames(done)
        invariant forall va :: va in todo && pages[va].frame.Some? ==> pages[va].frame.value in pool.inUse
        decreases todo
      {
        var va :| va in todo;
        DestroyPage(pool, Some(pages[va]));
        ResidentFramesUpdate(done, va, pages[va]);
        assert done - {va} == done;
        done := done[va := pages[va]];
        todo := todo - {va};
      }
      assert done == old(pages);
      pages := map[];
    }
  }

  /** `destroy_page`: NULL is a no-op; otherwise the page's frame, if any, goes
      back to the pool (the record itself is freed; records are values here). */
  method DestroyPage(pool: FramePool, p: Option<Page>)
    requires pool.Valid()
    requires p.Some? && p.value.frame.Some? ==> p.value.frame.value in pool.inUse
    modifies pool
    ensures pool.Valid()
    ensures pool.inUse == if p.Some? then old(pool.inUse) - FramesOf(p.value) else old(pool.inUse)
  {
    if p.None? {
      return;
    }
    if p.value.frame.Some? {
      pool.Free(p.value.frame.value);
    }
  }
}
