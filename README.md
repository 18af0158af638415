# Pintos supplemental page table and page-fault resolution

A Dafny model of the demand-paging core of a Pintos kernel (`vm/page.c`,
with the record layout of `vm/page.h`). Each process has a supplemental page
table: page records keyed by user virtual address. A record says where the
page's contents come from. It can be a zero page, a file page (`read_bytes`
bytes of a file at `file_offset`, then `zero_bytes` zeros) or a swap page. The
record may also hold the frame that backs the page. On a page fault the handler:

1. looks the page up;
2. rejects a write to a read-only page;
3. allocates a frame;
4. fills the frame from the page's source;
5. installs the frame in the page directory;
6. only then records the frame in the page.

A failure after step 3 gives the frame back to the pool.

Modules:

- `Types` (`types.dfy`): bytes, addresses, frame ids, `PGSIZE` (4096), and `Option` for nullable pointers.
- `Frames` (`frames.dfy`): the frame pool. This collaborator is kept abstract: a fixed capacity, the set of frames in use and the physical memory behind them. Frame `f` occupies `mem[f*PGSIZE ..]`. Allocation hands out the lowest free frame, or reports exhaustion.
- `Files` (`files.dfy`): the file collaborator. A file is its contents. `file_read_at` delivers the bytes available at the offset, at most the number requested.
- `PageTable` (`page_table.dfy`): the page record, `page_less`, the table class (`spt_find_page`, `spt_insert_page`, `supplemental_page_table_destroy`, `copy_page`, `supplemental_page_table_copy`, `supplemental_page_table_kill`) and `destroy_page`. It also holds the lemmas on resident frames and copying.
- `PageFault` (`page_fault.dfy`): `fetch_page_data` filling a frame in place, the page directory, and `vm_try_handle_fault`.
- `Scenario` (`scenario.dfy`): a client that faults in a ten-byte file page and faults an unmapped address, proved from the contracts alone.

The table is a class whose `pages: map<VA, Page>` field the methods
reassign. The pool and the page directory are classes too. The frame's memory
is an `array<byte>` that `fetch_page_data` fills with loops (`memset`, the
copy done by `file_read_at`). Nondeterministic outcomes of foreign calls are
parameters:

- `mallocFails` is the set of addresses whose `copy_page` finds `malloc` returning NULL;
- `installSucceeds` is the result of `pagedir_set_page`.

`thread_current()->pagedir` is passed in as the `PageDirectory`.

Source quirks kept in the model:

- `copy_page` copies the whole record, so the copy shares the source's frame. `Copy` keeps this; `CopyUnshared` is the corrected variant (see Findings).
- A failed insert in `copy_page` leaks the new record. Records are values here, so the leak has no counterpart.
- Nothing checks `read_bytes + zero_bytes <= PGSIZE`. `WellFormed` asks it of the fault handler's caller for the faulting page.
- Faulting a page that already holds a frame overwrites `p->frame` and leaks the old frame. The model does the same: the old frame stays in use.

## Model

| member | source | states |
|---|---|---|
| `Frames.LowestFree` | vm/frame.c:11-17 | the frame chosen is in range and free, every lower one is taken, and "none" means every frame is in use |
| `Frames.FramePool.Allocate` | vm/frame.c:11-17 | hands out exactly that frame and marks it in use, or reports that every frame is taken and changes nothing |
| `Frames.FramePool.Free` | vm/frame.c:20-22 | a frame in use is returned; nothing else changes |
| `Frames.BaseOwnsPage` | vm/page.c:158-159 | proof helper for the frame layout: the bytes of frame `f`'s page, passed to `fetch_page_data`, are exactly the memory indices whose page number is `f` |
| `Files.ReadAt` | vm/page.c:125 | the bytes read are the file's bytes at the offset, never more than requested, and short only at end of file |
| `Files.ShortReadIff` | vm/page.c:125-127 | a read is short exactly when the requested range runs past the end of the file |
| `Files.FileReadAt` | vm/page.c:125 | writes exactly those bytes at the buffer's start, returns their number, and leaves the rest of memory alone |
| `PageTable.PageLessKeysByVa` | vm/page.c:15-26 | two pages are the same hash element exactly when their addresses agree; `page_less` is a strict order |
| `PageTable.ResidentFramesUpdate` | vm/page.c:86-98 | changing one entry changes the table's resident frames by that entry's frame only |
| `PageTable.AliasedCopySharesFrame` | vm/page.c:56-68 | after a successful raw copy, each resident source frame is held by both tables |
| `PageTable.UnsharedCopyOwnsNoFrame` | vm/page.c:56-68 | a frame-clearing copy adds no resident frame, keeps the tables frame-disjoint and keeps the one-owner invariant |
| `PageTable.SupplementalPageTable.constructor` | vm/page.c:29-33 | the new table is empty: every lookup yields NULL |
| `PageTable.SupplementalPageTable.Find` | vm/page.c:36-42 | a record is found exactly when one is filed under `va`; it is that record, and its address is `va` |
| `PageTable.SupplementalPageTable.Insert` | vm/page.c:45-48 | succeeds exactly when the address is new; then lookup finds the page. On a duplicate address it fails and the table is unchanged. Lookups of other addresses never change |
| `PageTable.SupplementalPageTable.Destroy` | vm/page.c:51-53 | empties the table without touching records or frames |
| `PageTable.SupplementalPageTable.CopyPage` | vm/page.c:56-68 | fails on malloc failure or an address already present (table unchanged); otherwise it inserts the whole source record, frame included |
| `PageTable.SupplementalPageTable.Copy` | vm/page.c:71-83 | succeeds exactly when no source address is present already and no malloc fails; then it adds every source record as is. In every case existing entries stay, and every new entry is a field-for-field copy of a source record |
| `PageTable.SupplementalPageTable.CopyPageUnshared` | vm/page.c:56-68 | as `CopyPage`, but the inserted copy holds no frame |
| `PageTable.SupplementalPageTable.CopyUnshared` | vm/page.c:71-83 | as `Copy`, but every copied record holds no frame |
| `PageTable.SupplementalPageTable.Kill` | vm/page.c:86-98 | returns exactly the resident frames of the table to the pool, frees no other frame, and leaves the table empty |
| `PageTable.DestroyPage` | vm/page.c:102-114 | NULL is a no-op; otherwise the page's frame, if any, goes back to the pool and nothing else is freed |
| `PageFault.Fetched` | vm/page.c:119-136 | a frame's bytes after population, one page long; its layout is stated by the three lemmas below |
| `PageFault.ZeroPageIsZero` | vm/page.c:121-123 | a zero page always populates, and the whole page is zero |
| `PageFault.FilePageFetchableIff` | vm/page.c:124-127 | a file page fails exactly when `file_offset + read_bytes` runs past the end of the file, unless `read_bytes` is 0 |
| `PageFault.FilePageLayout` | vm/page.c:124-129 | a populated file page holds the file's bytes at `file_offset`, then `zero_bytes` zeros, then the frame's previous bytes |
| `PageFault.OtherPagesFail` | vm/page.c:130-134 | a swap page or an out-of-range type never populates and leaves the frame alone |
| `PageFault.ZeroFill` | vm/page.c:128 | zeroes exactly the given range |
| `PageFault.FetchPageData` | vm/page.c:119-136 | succeeds exactly when the page is populatable; the frame's page becomes `Fetched` of its old bytes; no other memory changes |
| `PageFault.PageDirectory.SetPage` | vm/page.c:164 | installs `va -> (frame, writable)` exactly when the install succeeds; otherwise the directory is unchanged |
| `PageFault.TryHandleFault` | vm/page.c:139-172 | An unknown address or a write to a read-only page fails and changes nothing. Otherwise the fault succeeds exactly when a frame is free, the page populates and the install succeeds. Any failure leaves the pool, the table and the directory as they were. Success takes the lowest free frame and populates it; it maps the address to the frame with the page's writable bit, and sets the page's frame, changing no other entry. Only the page of the frame the allocation would hand out may be written, so frames already in use never are. The one-owner invariant is kept whenever it held before |
| `Scenario.FileFault` | vm/page.c:139-172 | a write fault on a writable ten-byte file page succeeds: the frame holds the file's bytes then zeros, and the page becomes resident. A fault at an unmapped address fails and allocates nothing |

## Findings

| source | as written | input that shows it | evidently intended | confidence | as-written member | corrected member |
|---|---|---|---|---|---|---|
| vm/page.c:56-68 | `copy_page` copies the whole record, so the copy keeps the source page's frame | a source table with one resident page (frame f), copied into an empty table: both tables now hold f, and killing both frees f twice | a copied record starts non-resident and is faulted in again | high (not executed) | `PageTable.AliasedCopySharesFrame` | `PageTable.UnsharedCopyOwnsNoFrame` |

`PageTable.SupplementalPageTable.Copy` is the code as written.
`AliasedCopySharesFrame` shows the shared frame in its successful result.
`PageTable.SupplementalPageTable.CopyUnshared` is the corrected copy, and
`UnsharedCopyOwnsNoFrame` proves that it adds no shared frame. The double free
also shows in the contracts: `Kill` requires every resident frame to be in
use, and that no longer holds for the second table once the first is killed.
Killing only the copy leaves the source table holding a frame the pool counts
as free. `PageFault.TryHandleFault` does not require frame ownership, so a
later fault in the source table can be handed that same frame again.

## Left out

- The hash library (`hash_bytes`, buckets, iterators): the table is a `map` keyed by address. `page_hash` has no member of its own, since it depends on `va` alone. Iteration in `copy` and `kill` is "for each entry, in some order". The free-during-iteration hazard of `kill` is not modelled.
- Pointer identity of records: `spt_find_page` returns the record itself. Here it returns an equal value, and the fault handler's commit updates the table's entry.
- `malloc`/`free` of records: a record's allocation shows only as the `mallocFails` outcome, and its release and the leak in `copy_page` are not modelled.
- `palloc_get_page`/`palloc_free_page` are reduced to the frame pool. `allocate_frame` in vm/frame.c panics on exhaustion; the model returns "no frame" instead, so that the NULL check in the fault handler is reachable. Frames are not zeroed on free.
- `pagedir_set_page` is reduced to its outcome and its mapping update. Its assertions (page alignment, address not yet mapped) are not modelled.
- `file_read_at` is reduced to the bytes it delivers. The file handle is the file's contents, and a negative `off_t` offset is not modelled (`fileOffset` is a `nat`).
- Swap-in is not implemented in the source; a swap page is the fixed failure case.
- userprog/syscall.c (`exit`, the interrupt registration) is thread lifecycle and locking, not paging, and is not part of this model. `frame_init` does nothing and has no member.
- `supplemental_page_table_init` is declared in vm/page.h but only `supp_page_table_init` is defined; the table's constructor models the latter.
- `PageFault.TryHandleFault`: requires `read_bytes + zero_bytes <= PGSIZE` for the faulting page, which the source never checks (vm/page.c:125-128).
- The kva stored in the frame field: vm/page.c:170 stores the raw kernel address returned by the allocator into `p->frame`, a `struct frame *`, and vm/page.c:109 then frees `p->frame->kva`. That value is the first word of the frame's contents, not the frame. For a zero page it is 0, so `palloc_free_page(NULL)` returns and the frame leaks. For a file page it is the file's first bytes read as an address. The model uses one frame id for both, so `DestroyPage` and `Kill` free the frame itself; this misbehaviour is not captured.
- `PageTable.SupplementalPageTable.Destroy`: `hash_destroy` frees the buckets, so in the source the table cannot be used afterwards without a new `hash_init`. The model leaves an empty table that can still be used.
- Concurrency: there is no locking of the pool or the table in the source, and none in the model.
- Eviction: the source has no eviction path.
