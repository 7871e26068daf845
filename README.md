# dfly::ExternalAllocator in Dafny

A model of dragonfly's external allocator (`src/core/external_alloc.h`). The allocator is a
bookkeeping state machine for a backing storage it never reads or writes, such as a file on
disk. It works in the style of mimalloc:

- `Malloc(sz)` returns an offset into the storage. When no storage is left, it instead returns
  the negated size of the storage it needs.
- `Free(offset, sz)` gives a block back.
- `AddStorage(offset, size)` hands the allocator more storage. Storage is added in order, each
  extent starting on a 256 MiB boundary.
- `GoodSize(sz)` is the block size a request is rounded to.
- `capacity()` and `allocated_bytes()` report the two counters.

Storage is cut into 256 MiB segments (`kExtAlignment`, 2^28); segment i covers
[i << 28, (i + 1) << 28). A segment is bound to one page class:

- SMALL: 1 MiB pages, for blocks up to 128 KiB;
- MEDIUM: 8 MiB pages, for blocks up to 1 MiB;
- LARGE: one block per page.

A page hosts the blocks of one size bin. There are 35 bins: bins 0..33 are SMALL and MEDIUM
block sizes, and bin 34 (`kLargeSizeBin`) is the LARGE sentinel.

Modules, in dependency order:

| file | module | contents |
|---|---|---|
| sizeclass.dfy | SizeClass | the constants, the bin table, `BinOf`, `ClassOf`, `GoodSize` and its properties |
| pages.dfy | Pages | a page: its in-use bitmap and free-block counter; `Occupy`, `Release`, `TryAllocate` |
| wrappers.dfy | Wrappers | `Option` |
| handles.dfy | Handles | lists of handles without duplicates: the free-page and spare-segment lists |
| extents.dfy | Extents | the pending-storage queue (`added_segs_`), `Claim`, contiguity |
| segments.dfy | Segments | segments, page and block addressing, `ToSegDescr`, the abstract view `LiveBlock`, byte totals |
| allocstate.dfy | AllocState | the allocator invariant `Inv` on values, and one step lemma per operation |
| transitions.dfy | Transitions | each operation as a transition from a state to the next, proved to keep `Inv` and to change the allocations as the operation promises |
| external_alloc.dfy | ExternalAlloc | the class `ExternalAllocator`: its fields and methods, and the client-level lemmas |

The class has these fields:

| field | source field | what it holds |
|---|---|---|
| `spareSegs` | `sq_[3]` | per page class, the segments that can still carve a page |
| `freePages` | `free_pages_[35]` | per bin, the pages with a free block |
| `segments` | `segments_` | the segments |
| `addedSegs` | `added_segs_` | the storage not yet turned into segments |
| `capacity` | `capacity_` | bytes of storage added |
| `allocatedBytes` | `allocated_bytes_` | bytes handed out |

Two ghost fields carry the specification:

- `added` lists every extent passed to `AddStorage`.
- `live` maps each allocated offset to its block size.

The invariant `Valid()` ties `live` to the segments' bitmaps (`Coupled`). It also requires that:

- `allocatedBytes` is the sum of the bytes in use;
- `capacity` is the sum of the added extents;
- every page on a free list has a free block;
- every page with a free block is on its bin's free list;
- every segment with room is on its class's spare list.

A page is named by its handle, the absolute offset of its first byte. So `ToSegDescr(h)` is
`h >> 28`, the same rule that finds a block's segment from its offset.

## Model

| member | source | states |
|---|---|---|
| SizeClass.ClassIndex | src/core/external_alloc.h:90 | each of the three page classes has its slot in the per-class table `sq_[3]` |
| SizeClass.BinSize | src/core/external_alloc.h:29-30 | every block size of bins 0..33 is at least the smallest block (3.5 KiB) and a multiple of 512 bytes |
| SizeClass.ClassOf | src/core/external_alloc.h:32-41 | a request is SMALL exactly when it is at most 128 KiB and LARGE exactly when it is above 1 MiB; MEDIUM otherwise |
| SizeClass.BinOf | src/core/external_alloc.h:29-30 | a request falls into one of the 35 bins; bin 34 is used exactly for requests above 1 MiB (LARGE) |
| SizeClass.BinFrom | src/core/external_alloc.h:29-30 | the chosen bin holds the request, and the bin before it does not |
| SizeClass.BinOfLeast | src/core/external_alloc.h:67-70 | every bin below a request's bin is too small for it: the tightest bin is chosen |
| SizeClass.BinOfBinSize | src/core/external_alloc.h:29-30 | a bin's own block size is classified into that bin |
| SizeClass.ClassOfBinOf | src/core/external_alloc.h:32-41 | the bin of a request belongs to the request's page class (SMALL up to 128 KiB, MEDIUM up to 1 MiB, LARGE above) |
| SizeClass.GoodSize | src/core/external_alloc.h:67-70 | the block handed out for sz is never smaller than sz |
| SizeClass.GoodSizeIdempotent | src/core/external_alloc.h:67-70 | a good size is its own good size |
| SizeClass.GoodSizeMonotone | src/core/external_alloc.h:67-70 | a larger request never gets a smaller block |
| SizeClass.GoodSizeOverhead | src/core/external_alloc.h:67-70 | the rounding wastes less than a quarter of the request above the smallest bin, and less than 4 KiB for LARGE blocks |
| SizeClass.GoodSizeClass | src/core/external_alloc.h:32-41 | the rounded size has the same page class and the same bin as the request |
| SizeClass.GoodSizeBounded | src/core/external_alloc.h:50 | a request of at most one segment gets a non-empty block of at most one segment |
| Pages.CarveUnit | src/core/external_alloc.h:32-34 | a SMALL or MEDIUM page takes a fixed unit that divides the 256 MiB segment; a LARGE page takes exactly its block |
| Pages.NewPage | src/core/external_alloc.h:84 | a freshly carved page has all its blocks free, as many as fit in its size |
| Pages.Occupy | src/core/external_alloc.h:56-58 | taking a free block marks it used, lowers the free count by one and adds one block size to the page's bytes |
| Pages.Release | src/core/external_alloc.h:59 | freeing a used block marks it free, raises the free count by one and removes one block size from the page's bytes |
| Pages.OccupyReleaseInverse | src/core/external_alloc.h:58-59 | occupying then releasing a block, or the reverse, gives back the same page |
| Pages.EmptyPage | src/core/external_alloc.h:86 | a page whose blocks are all free holds no bytes and has every bit clear |
| Pages.TryAllocate | src/core/external_alloc.h:56-58 | a page with a free block yields its first free block, and the page with that block occupied |
| Handles.NoDupPush | src/core/external_alloc.h:91 | pushing a handle not on a list keeps the list free of duplicates |
| Handles.Without | src/core/external_alloc.h:86 | removing a handle from a list removes exactly that handle |
| Extents.ContiguousTotal | src/core/external_alloc.h:100 | storage added contiguously from lo ends at lo plus the sum of the extent sizes |
| Extents.Claim | src/core/external_alloc.h:96-98 | cutting one segment off the pending storage lowers its total by 2^28 |
| Extents.ClaimValid | src/core/external_alloc.h:96-98 | after one segment is cut off, the pending storage still tiles the rest in order, on segment boundaries |
| Extents.AddValid | src/core/external_alloc.h:61-65 | an aligned extent added at the end keeps the pending storage contiguous and aligned |
| Extents.AddProgress | src/core/external_alloc.h:61-65 | once a whole segment of storage is added at an aligned end, a segment can be made |
| Segments.ToSegDescr | src/core/external_alloc.h:88 | the segment of a handle or offset is offset >> 28: the segment whose 256 MiB range holds it |
| Segments.Locate | src/core/external_alloc.h:93-94 | a decoded offset names an existing segment (offset >> 28), page and block, and that block's offset is the offset decoded |
| Segments.Carve | src/core/external_alloc.h:84 | carving adds exactly one page, at the old cursor, keeps the segment's class and moves the cursor by the page's size |
| Segments.Drop | src/core/external_alloc.h:86 | dropping removes exactly that page and keeps the class; a segment left without pages restarts its cursor at 0, otherwise the cursor stays |
| Segments.HandleDecode | src/core/external_alloc.h:93-94 | a page's handle decodes back to its segment and to its offset inside that segment |
| Segments.LocateBlock | src/core/external_alloc.h:93-94 | the offset of block j of a page decodes back to that segment, page and block |
| Segments.PageAtHandle | src/core/external_alloc.h:88 | a page's handle names that page |
| Segments.LiveInSegment | src/core/external_alloc.h:93-94 | a live block lies entirely inside the segment its offset >> 28 names |
| Segments.LiveDisjoint | src/core/external_alloc.h:56-58 | live blocks never overlap |
| Segments.LiveBytes | src/core/external_alloc.h:101 | a live block's size is positive and at most the byte total |
| Segments.BytesZeroIffNoLive | src/core/external_alloc.h:101 | the byte total is zero exactly when no block is live |
| Segments.CarvedPageValid | src/core/external_alloc.h:84 | a page carved at the cursor of a segment with room is a valid page there, and the segment stays valid |
| Segments.CarveSegmentValid | src/core/external_alloc.h:84 | carving a valid page at the cursor keeps the segment's pages below the cursor and apart |
| Segments.CarveFrame | src/core/external_alloc.h:84 | carving a page of free blocks changes neither the byte total nor any live block |
| Segments.DropFrame | src/core/external_alloc.h:86 | dropping an empty page changes neither the byte total nor any live block |
| Segments.AppendFrame | src/core/external_alloc.h:85 | a new empty segment changes neither the byte total nor any live block |
| Segments.OccupyView | src/core/external_alloc.h:56-58 | occupying block j makes exactly its offset live, with the page's block size |
| Segments.ReleaseView | src/core/external_alloc.h:59 | releasing a used block makes exactly its offset not live |
| AllocState.InitInv | src/core/external_alloc.h:52 | a fresh allocator (no segments, empty lists, no storage, zero bytes) satisfies the invariant |
| AllocState.ClaimStep | src/core/external_alloc.h:85 | making a segment from the pending storage and listing it as spare keeps the invariant |
| AllocState.CarveStep | src/core/external_alloc.h:84 | carving a page keeps the invariant, with the new page exempt until it is listed |
| AllocState.PushStep | src/core/external_alloc.h:91 | pushing a new page on its bin's free list keeps the invariant |
| AllocState.OccupyStep | src/core/external_alloc.h:58 | occupying a block, and popping a page that became full, keeps the invariant and adds the block size to the byte total |
| AllocState.ReleaseStep | src/core/external_alloc.h:59 | releasing a block, and pushing a page that was full, keeps the invariant and takes the block size from the byte total |
| AllocState.ReleaseLastStep | src/core/external_alloc.h:59 | releasing a page's last used block keeps the invariant, with the now-empty page exempt |
| AllocState.DropStep | src/core/external_alloc.h:86 | taking an empty page off its list and out of its segment keeps the invariant, and a segment that was full becomes spare |
| AllocState.AddStep | src/core/external_alloc.h:61-65 | queueing an aligned extent at the end of the storage keeps the invariant and raises the capacity by its size |
| Transitions.RequestFits | src/core/external_alloc.h:32-41 | a request of at most one segment fits its page class and its bin |
| Transitions.ClaimTransition | src/core/external_alloc.h:85 | the new segment's index is the pending storage's offset >> 28, and making it keeps the invariant and the allocations |
| Transitions.SparesOfClass | src/core/external_alloc.h:90 | the spare list of a class names segments of that class |
| Transitions.CarveTransition | src/core/external_alloc.h:84 | the carved page is new, lies in the chosen segment and is on no free list; the invariant and the allocations are kept |
| Transitions.PushTransition | src/core/external_alloc.h:91 | the pushed page heads its bin's free list and the invariant is kept |
| Transitions.HeadPage | src/core/external_alloc.h:91 | the page at the head of a free list belongs to that bin and has a free block |
| Transitions.AllocateTransition | src/core/external_alloc.h:56-58 | the offset handed out was not live, becomes live with the page's block size, and the byte total grows by that size |
| Transitions.FreeLocate | src/core/external_alloc.h:93-94 | a live offset decodes to segment offset >> 28, to a page and to a used block of exactly its size |
| Transitions.UsedBlock | src/core/external_alloc.h:101 | a used block's size is part of the byte total |
| Transitions.ReleaseReady | src/core/external_alloc.h:59 | before a free, the block's page is consistent, its bin has a free list and the byte total covers the block |
| Transitions.ReleaseTransition | src/core/external_alloc.h:59 | freeing a block that is not its page's last one removes exactly that offset from the allocations and keeps the invariant |
| Transitions.ReleaseLastTransition | src/core/external_alloc.h:59 | freeing a page's last block removes exactly that offset and leaves the page empty, with the right block size |
| Transitions.DropTransition | src/core/external_alloc.h:86 | the empty page leaves the free list of the bin of its block size, and its segment; the invariant and the allocations are kept |
| ExternalAlloc.ExternalAllocator.constructor | src/core/external_alloc.h:52 | a new allocator has no storage, no allocation and zero counters |
| ExternalAlloc.ExternalAllocator.Capacity | src/core/external_alloc.h:72-74 | capacity() is the sum of the sizes added, and equals the segments made plus the storage pending |
| ExternalAlloc.ExternalAllocator.AllocatedBytes | src/core/external_alloc.h:76-78 | allocated_bytes() is the sum of the live blocks, zero exactly when nothing is allocated |
| ExternalAlloc.ExternalAllocator.GetNewSegment | src/core/external_alloc.h:85 | a segment is made exactly when a whole segment is pending; its index is the pending offset >> 28; otherwise nothing changes |
| ExternalAlloc.ExternalAllocator.SpareWithRoom | src/core/external_alloc.h:90 | the segment found is a spare of the class with room; when none is found, no spare of the class has room |
| ExternalAlloc.ExternalAllocator.CarvePage | src/core/external_alloc.h:84 | carves a new page of all-free blocks in the given segment and keeps every allocation |
| ExternalAlloc.ExternalAllocator.FindPage | src/core/external_alloc.h:84 | yields a new page of the bin; reports a segment's size as missing, changing nothing, only when no spare segment of the class has room and no segment can be made; the pending storage is either kept or loses exactly one claimed segment |
| ExternalAlloc.ExternalAllocator.PushPage | src/core/external_alloc.h:91 | the new page goes on the front of its bin's free list and nothing else changes |
| ExternalAlloc.ExternalAllocator.ListNewPage | src/core/external_alloc.h:91 | the new page heads its bin's free list, with the requested block size; the missing-storage case is FindPage's, with the same conditions |
| ExternalAlloc.ExternalAllocator.AllocateFrom | src/core/external_alloc.h:56-58 | the offset returned was not allocated and now is, with the block size; allocated_bytes grows by that size |
| ExternalAlloc.ExternalAllocator.Malloc | src/core/external_alloc.h:54-58 | a request of sz > 0 bytes: a non-negative result is a newly allocated offset of GoodSize(sz) bytes; a negative result is minus the storage needed (one segment), only when the bin's free list is empty (or the request is LARGE), no spare segment of the class has room and no segment can be made, and then nothing changes; otherwise the pending storage loses at most one claimed segment |
| ExternalAlloc.ExternalAllocator.FreePage | src/core/external_alloc.h:86 | the empty page of segment owner is gone from its segment and from the free list of the bin of block_size; allocations and counters are kept |
| ExternalAlloc.ExternalAllocator.ReleaseInPage | src/core/external_alloc.h:59 | the block stops being allocated and allocated_bytes drops by its size |
| ExternalAlloc.ExternalAllocator.ReleaseLast | src/core/external_alloc.h:59 | the block stops being allocated, allocated_bytes drops by its size and its page is left empty |
| ExternalAlloc.ExternalAllocator.Free | src/core/external_alloc.h:59 | for the size sz > 0 the block was allocated with: the offset stops being allocated and allocated_bytes drops by GoodSize(sz); capacity is kept |
| ExternalAlloc.ExternalAllocator.AddStorage | src/core/external_alloc.h:61-65 | capacity grows by the size and the extent only joins the pending queue; after a whole segment is added, Malloc can make a segment |
| ExternalAlloc.LiveInStorage | src/core/external_alloc.h:93-94 | every allocation lies inside the segment its offset >> 28 names, and inside the storage added |
| ExternalAlloc.LiveNoOverlap | src/core/external_alloc.h:56-58 | allocations never overlap |
| ExternalAlloc.MallocWithStorage | src/core/external_alloc.h:54-65 | a caller that adds the storage Malloc asks for, at the end of the storage, then gets its block |

## Left out

- The implementation file `src/core/external_alloc.cc` is not part of this model. The
  operations follow the header's contracts and the allocator's documented design. So these
  are the model's own choices:
  - the bin table (four bins per doubling, from 3.5 KiB to 1 MiB);
  - LARGE rounding to 4 KiB;
  - LIFO free and spare lists;
  - carving pages at a bump cursor that resets once a segment is empty.
- ExternalAlloc.ExternalAllocator.Malloc: requires sz <= 256 MiB, so a LARGE block always fits
  in one segment. Larger requests are not modelled.
- ExternalAlloc.ExternalAllocator.FindPage: takes the bin and the block size besides the page
  class, so that the page it carves is sized for the request.
- ExternalAlloc.ExternalAllocator.FreePage: names the page by its segment and its offset inside
  the segment, where the source passes a page pointer. The page's handle is the sum of the
  segment's base offset and that offset.
- Bin 34's free list is always empty between calls. A LARGE page holds one block: Malloc
  pushes the new page on that list and takes it off again when it hands the block out.
- A segment stays bound to the page class it was first made for, even after it empties.
- ExternalAlloc.ExternalAllocator.AddStorage: requires the extent to start at the current
  capacity. The header expects storage to be added in order, without skipping ranges.
- Integer widths (`int64_t`, `size_t`) are not modelled; all sizes are unbounded naturals.
  Malloc's result is an unbounded integer.
- The B-tree of `added_segs_` is modelled as a sequence of extents in order. Adjacent extents
  are not merged.
- The deleted copy constructor and copy assignment, the single-thread requirement and the use
  of dynamic memory are outside the model.
- The smaller methods SpareWithRoom, CarvePage, ListNewPage, PushPage, AllocateFrom,
  ReleaseInPage and ReleaseLast are this model's own split of FindPage, Malloc and Free. The header declares
  only FindPage, GetNewSegment, FreePage and ToSegDescr as private helpers; how the
  implementation composes them is not part of this model.
- A page's slot is not reused while its segment still holds other pages. Segments.Drop
  takes the page out but moves the cursor back to 0 only when the segment is left empty.
  The freed space inside a segment that still has pages is therefore lost to later
  requests. Once the cursor has reached 256 MiB, Malloc can ask for more storage although
  such a slot is free. The allocator's design reuses the slot of a reclaimed page.
- ExternalAlloc.ExternalAllocator.Malloc: a zero-size request is a contract violation, so it
  requires sz > 0. ExternalAlloc.ExternalAllocator.Free requires the same of its size.
