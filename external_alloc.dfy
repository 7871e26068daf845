/** dfly::ExternalAllocator: a bookkeeping state machine for allocations in a backing
    storage it never touches. Malloc returns an offset into the storage, or the negated size
    of the storage it needs before it can succeed; Free returns a block; AddStorage hands
    more storage to the allocator. Storage is cut into 256 MiB segments, segments into pages
    of one page class, pages into blocks of one size bin. */
module ExternalAlloc {
  import opened SizeClass
  import opened Pages
  import opened Segments
  import opened Extents
  import opened Handles
  import opened Wrappers
  import opened AllocState
  import opened Transitions

  class ExternalAllocator {
    /** sq_: per page class, the segments that can still carve a page. */
    var spareSegs: seq<seq<nat>>
    /** free_pages_: per size bin, the handles of the pages that have a free block. */
    var freePages: seq<seq<nat>>
    /** segments_: segment i covers the storage [i << 28, (i + 1) << 28). */
    var segments: seq<Segment>
    /** added_segs_: storage added and not yet made into segments, lowest offset first. */
    var addedSegs: seq<Extent>
    var capacity: nat
    var allocatedBytes: nat
    /** Every extent ever passed to AddStorage, in order. */
    ghost var added: seq<Extent>
    /** The allocations: offset of each live block, mapped to its size. */
    ghost var live: map<nat, nat>

    /** The allocator invariant, with the pages in ex exempt from the page-list rules;
        the added extents tile [0, capacity) and live lists the blocks the segments hold. */
    ghost predicate ValidExcept(ex: set<nat>)
      reads this
    {
      && Inv(segments, freePages, spareSegs, addedSegs, capacity, allocatedBytes, ex)
      && Contiguous(added, 0, capacity)
      && Coupled(segments, live)
    }

    ghost predicate Valid()
      reads this
    {
      ValidExcept({})
    }

    /** A new allocator has no storage and no allocation. */
    constructor()
      ensures Valid() && capacity == 0 && allocatedBytes == 0 && added == [] && live == map[]
    {
      spareSegs := [[], [], []];
      freePages := seq(kNumSizeBins, _ => []);
      segments := [];
      addedSegs := [];
      capacity := 0;
      allocatedBytes := 0;
      added := [];
      live := map[];
      InitInv();
      CoupledEmpty();
    }

    /** capacity(): the total storage added so far. */
    function Capacity(): (r: nat)
      requires Valid()
      reads this
      ensures r == TotalSize(added)
      ensures r == |segments| * kExtAlignment + TotalSize(addedSegs)
    {
      ContiguousTotal(added, 0, capacity);
      ContiguousTotal(addedSegs, |segments| * kExtAlignment, capacity);
      capacity
    }

    /** allocated_bytes(): the total size of the blocks the segments hold; zero exactly when
        nothing is allocated. */
    function AllocatedBytes(): (r: nat)
      requires Valid()
      reads this
      ensures r == SegsBytes(segments)
      ensures r == 0 <==> live == map[]
    {
      BytesZeroIffNoLive(segments);
      assert live != map[] ==> exists o :: o in live && LiveBlock(segments, o).Some?;
      allocatedBytes
    }

    /** Makes a segment of class cls from the lowest pending storage, if a whole segment of it
        is pending, and lists it as a spare segment of its class. Its index is the pending
        storage's offset >> 28. */
    method GetNewSegment(cls: PageClass) returns (seg: Option<nat>)
      requires Valid()
      modifies this
      ensures Valid()
      ensures seg.Some? <==> old(CanClaim(addedSegs))
      ensures seg.None? ==> unchanged(this)
      ensures seg.Some? ==> && seg.value == old(|segments|)
                            && seg.value == ToSegDescr(old(addedSegs[0].offset))
                            && segments == old(segments) + [EmptySegment(cls)]
                            && addedSegs == old(Claim(addedSegs))
                            && spareSegs == old(spareSegs[ClassIndex(cls) := [|segments|] + spareSegs[ClassIndex(cls)]])
      ensures freePages == old(freePages) && capacity == old(capacity) && added == old(added)
      ensures allocatedBytes == old(allocatedBytes) && live == old(live)
    {
      if !CanClaim(addedSegs) {
        return None;
      }
      var c := ClassIndex(cls);
      var n := |segments|;
      spareSegs := spareSegs[c := [n] + spareSegs[c]];
      segments := segments + [EmptySegment(cls)];
      addedSegs := Claim(addedSegs);
      ClaimTransition(old(segments), freePages, old(spareSegs), old(addedSegs), capacity, allocatedBytes, live, cls,
                      segments, spareSegs, addedSegs);
      seg := Some(n);
    }

    /** The first spare segment of class cls with room for a page of blocks of size bs, if any. */
    method SpareWithRoom(cls: PageClass, bs: nat) returns (x: Option<nat>)
      requires Valid()
      ensures x.Some? ==> && x.value in spareSegs[ClassIndex(cls)] && x.value < |segments|
                          && segments[x.value].cls == cls && HasRoom(segments[x.value], bs)
      ensures x.None? ==> forall y :: y in spareSegs[ClassIndex(cls)] ==> !HasRoom(segments[y], bs)
    {
      var spares := spareSegs[ClassIndex(cls)];
      SparesOfClass(segments, spareSegs, cls);
      var t := 0;
      while t < |spares| && !HasRoom(segments[spares[t]], bs)
        invariant t <= |spares|
        invariant forall u :: 0 <= u < t ==> !HasRoom(segments[spares[u]], bs)
      {
        t := t + 1;
      }
      if t < |spares| {
        return Some(spares[t]);
      }
      return None;
    }

    /** Carves a fresh page for blocks of bin `bin` (size bs) at the cursor of segment x, of
        class cls and with room for it; the segment leaves its spare list once it is full. The
        new page, at handle h, is on no list yet. */
    method CarvePage(x: nat, cls: PageClass, bin: nat, bs: nat) returns (h: nat)
      requires Valid() && x < |segments| && segments[x].cls == cls
      requires Fits(cls, bin, bs) && 0 < bs && HasRoom(segments[x], bs)
      modifies this
      ensures ValidExcept({h}) && ToSegDescr(h) == x
      ensures !old(IsPage(segments, h)) && IsPage(segments, h)
      ensures PageAt(segments, h) == NewPage(bin, bs, CarveUnit(cls, bs))
      ensures h !in freePages[bin] && FreePageOf(segments, h, bin)
      ensures freePages == old(freePages) && addedSegs == old(addedSegs) && capacity == old(capacity)
      ensures added == old(added) && allocatedBytes == old(allocatedBytes) && live == old(live)
    {
      var c := ClassIndex(cls);
      var s := segments[x];
      var s' := Carve(s, NewPage(bin, bs, CarveUnit(cls, bs)));
      var L := if s'.cursor < kExtAlignment then spareSegs[c] else Without(spareSegs[c], x);
      segments := segments[x := s'];
      spareSegs := spareSegs[c := L];
      h := PageHandle(x, s.cursor);
      CarveTransition(old(segments), freePages, old(spareSegs), addedSegs, capacity, allocatedBytes, live, x, bin, bs,
                      segments, spareSegs, h);
    }

    /** Finds a page for blocks of bin `bin` (size bs) of class cls: a new page carved from the
        first spare segment of the class with room, else from a newly made segment. When
        neither exists, reports the storage needed, one segment. The new page is on no list yet. */
    method FindPage(cls: PageClass, bin: nat, bs: nat) returns (page: Option<nat>, segSize: nat)
      requires Valid() && Fits(cls, bin, bs) && 0 < bs <= kExtAlignment
      modifies this
      ensures page.None? ==> segSize == kExtAlignment && !old(CanClaim(addedSegs)) && unchanged(this)
      ensures page.None? ==> forall y :: y in old(spareSegs[ClassIndex(cls)]) ==> !HasRoom(old(segments[y]), bs)
      ensures old(CanClaim(addedSegs)) ==> page.Some?
      ensures addedSegs == old(addedSegs) || (old(CanClaim(addedSegs)) && addedSegs == old(Claim(addedSegs)))
      ensures page.Some? ==> && ValidExcept({page.value})
                             && !old(IsPage(segments, page.value)) && IsPage(segments, page.value)
                             && PageAt(segments, page.value) == NewPage(bin, bs, CarveUnit(cls, bs))
                             && page.value !in freePages[bin] && FreePageOf(segments, page.value, bin)
      ensures freePages == old(freePages) && capacity == old(capacity) && added == old(added)
      ensures allocatedBytes == old(allocatedBytes) && live == old(live)
    {
      var spare := SpareWithRoom(cls, bs);
      var x: nat;
      if spare.Some? {
        x := spare.value;
      } else {
        var seg := GetNewSegment(cls);
        if seg.None? {
          return None, kExtAlignment;
        }
        x := seg.value;
      }
      var h := CarvePage(x, cls, bin, bs);
      page, segSize := Some(h), 0;
    }

    /** Malloc's step when the request's bin has no page with a free block: a page is found
        (FindPage) and goes on the front of the bin's free list. When no page can be found,
        reports the storage needed, one segment, and changes nothing. */
    method ListNewPage(cls: PageClass, bin: nat, bs: nat) returns (page: Option<nat>, segSize: nat)
      requires Valid() && Fits(cls, bin, bs) && 0 < bs <= kExtAlignment
      modifies this
      ensures page.None? ==> segSize == kExtAlignment && !old(CanClaim(addedSegs)) && unchanged(this)
      ensures page.None? ==> forall y :: y in old(spareSegs[ClassIndex(cls)]) ==> !HasRoom(old(segments[y]), bs)
      ensures old(CanClaim(addedSegs)) ==> page.Some?
      ensures addedSegs == old(addedSegs) || (old(CanClaim(addedSegs)) && addedSegs == old(Claim(addedSegs)))
      ensures page.Some? ==> && ValidExcept({page.value}) && bin < |freePages|
                             && freePages[bin] != [] && freePages[bin][0] == page.value
                             && IsPage(segments, page.value) && PageAt(segments, page.value).blockSize == bs
      ensures capacity == old(capacity) && added == old(added)
      ensures allocatedBytes == old(allocatedBytes) && live == old(live)
    {
      page, segSize := FindPage(cls, bin, bs);
      if page.Some? {
        PushPage(page.value, bin);
      }
    }

    /** Puts the new page h, of bin `bin` and with a free block, on the front of the bin's free list. */
    method PushPage(h: nat, bin: nat)
      requires ValidExcept({h}) && bin < kNumSizeBins && h !in freePages[bin] && FreePageOf(segments, h, bin)
      modifies this
      ensures ValidExcept({h}) && bin < |freePages| && freePages == old(freePages[bin := [h] + freePages[bin]])
      ensures segments == old(segments) && spareSegs == old(spareSegs) && addedSegs == old(addedSegs)
      ensures capacity == old(capacity) && added == old(added)
      ensures allocatedBytes == old(allocatedBytes) && live == old(live)
    {
      freePages := freePages[bin := [h] + freePages[bin]];
      PushTransition(segments, old(freePages), spareSegs, addedSegs, capacity, allocatedBytes, h, bin, freePages);
    }

    /** Malloc's last step on page h, the head of the free list of bin `bin`: its first free
        block is allocated, the byte counter grows by the block size, and the page leaves the
        list once it has no free block. */
    method AllocateFrom(h: nat, bin: nat, bs: nat, ghost ex: set<nat>) returns (r: nat)
      requires ValidExcept(ex) && ex <= {h}
      requires bin < kNumSizeBins && freePages[bin] != [] && freePages[bin][0] == h
      requires IsPage(segments, h) && PageAt(segments, h).blockSize == bs
      modifies this
      ensures Valid()
      ensures r !in old(live) && live == old(live)[r := bs]
      ensures allocatedBytes == old(allocatedBytes) + bs
      ensures capacity == old(capacity) && added == old(added) && addedSegs == old(addedSegs)
    {
      HeadPage(segments, freePages, spareSegs, addedSegs, capacity, allocatedBytes, ex, bin);
      var p := PageAt(segments, h);
      var j, q := TryAllocate(p);
      var i, k := ToSegDescr(h), h % kExtAlignment;
      r := BlockOffset(i, k, j, p.blockSize);
      live := live[r := p.blockSize];
      segments := WithPage(segments, i, k, q);
      freePages := freePages[bin := if q.avail == 0 then freePages[bin][1..] else freePages[bin]];
      allocatedBytes := allocatedBytes + p.blockSize;
      AllocateTransition(old(segments), old(freePages), spareSegs, addedSegs, capacity, old(allocatedBytes), ex, old(live),
                         h, bin, j, segments, freePages, allocatedBytes, live, r);
    }

    /** Malloc: a block of GoodSize(sz) bytes, from the first page on the free list of the
        request's bin, else from a freshly carved page, which joins that list first. A
        negative result -n means n bytes of storage (one segment) must be added first; the
        allocator is then unchanged. */
    method Malloc(sz: nat) returns (r: int)
      requires Valid() && 0 < sz <= kExtAlignment
      modifies this
      ensures Valid()
      ensures r < 0 ==> r == -(kExtAlignment as int) && !old(CanClaim(addedSegs)) && unchanged(this)
      ensures r < 0 ==> BinOf(sz) == kLargeSizeBin || old(freePages[BinOf(sz)]) == []
      ensures r < 0 ==> forall y :: y in old(spareSegs[ClassIndex(ClassOf(sz))]) ==> !HasRoom(old(segments[y]), GoodSize(sz))
      ensures old(CanClaim(addedSegs)) ==> r >= 0
      ensures addedSegs == old(addedSegs) || (old(CanClaim(addedSegs)) && addedSegs == old(Claim(addedSegs)))
      ensures r >= 0 ==> && r !in old(live) && live == old(live)[r := GoodSize(sz)]
                         && allocatedBytes == old(allocatedBytes) + GoodSize(sz)
      ensures capacity == old(capacity) && added == old(added)
    {
      var bin := BinOf(sz);
      var bs := GoodSize(sz);
      var cls := ClassOf(sz);
      var h: nat;
      ghost var ex: set<nat>;
      if bin < kLargeSizeBin && freePages[bin] != [] {
        HeadPage(segments, freePages, spareSegs, addedSegs, capacity, allocatedBytes, {}, bin);
        h := freePages[bin][0];
        ex := {};
      } else {
        RequestFits(sz);
        var page, segSize := ListNewPage(cls, bin, bs);
        if page.None? {
          return -(segSize as int);
        }
        h := page.value;
        ex := {h};
      }
      r := AllocateFrom(h, bin, bs, ex);
    }

    /** Takes the empty page k of segment owner back: it leaves the free list of the bin of
        blockSize and its segment, and a segment that had been full becomes a spare segment again. */
    method FreePage(owner: nat, k: nat, blockSize: nat)
      requires ValidExcept({PageHandle(owner, k)}) && owner < |segments| && k in segments[owner].pages
      requires CountUsed(segments[owner].pages[k].used) == 0 && blockSize == segments[owner].pages[k].blockSize
      modifies this
      ensures Valid()
      ensures owner < |segments| && k !in segments[owner].pages
      ensures live == old(live) && allocatedBytes == old(allocatedBytes) && capacity == old(capacity)
      ensures added == old(added) && addedSegs == old(addedSegs)
    {
      var s := segments[owner];
      var s' := Drop(s, k);
      var c := ClassIndex(s.cls);
      var bin := BinOf(blockSize);
      var L := if s.cursor == kExtAlignment && s'.cursor < kExtAlignment then [owner] + spareSegs[c] else spareSegs[c];
      freePages := freePages[bin := Without(freePages[bin], PageHandle(owner, k))];
      segments := segments[owner := s'];
      spareSegs := spareSegs[c := L];
      DropTransition(old(segments), old(freePages), old(spareSegs), addedSegs, capacity, allocatedBytes, live, owner, k,
                     segments, freePages, spareSegs);
    }

    /** Free's step on used block j of page k of segment i when the page keeps another block
        in use: the block is free again, the byte counter drops by its size and a page that
        was full goes on the front of its bin's free list. */
    method ReleaseInPage(i: nat, k: nat, j: nat)
      requires Valid() && i < |segments| && SegmentValid(segments[i]) && k in segments[i].pages
      requires j < |segments[i].pages[k].used| && segments[i].pages[k].used[j]
      requires segments[i].pages[k].avail + 1 < |segments[i].pages[k].used|
      modifies this
      ensures Valid()
      ensures live == old(live) - {BlockOffset(i, k, j, old(segments[i].pages[k].blockSize))}
      ensures allocatedBytes + old(segments[i].pages[k].blockSize) == old(allocatedBytes)
      ensures capacity == old(capacity) && added == old(added) && addedSegs == old(addedSegs)
    {
      var p := segments[i].pages[k];
      ReleaseReady(segments, freePages, spareSegs, addedSegs, capacity, allocatedBytes, i, k, j);
      var L := if p.avail == 0 then [PageHandle(i, k)] + freePages[p.bin] else freePages[p.bin];
      live := live - {BlockOffset(i, k, j, p.blockSize)};
      segments := WithPage(segments, i, k, Release(p, j));
      freePages := freePages[p.bin := L];
      allocatedBytes := allocatedBytes - p.blockSize;
      ReleaseTransition(old(segments), old(freePages), spareSegs, addedSegs, capacity, old(allocatedBytes), old(live),
                        i, k, j, segments, freePages, allocatedBytes, live);
    }

    /** Free's step when used block j is the last one in use on page k of segment i: the
        block is free again and the byte counter drops by its size; the page, now empty, is
        exempt from the page rules until FreePage takes it back. */
    method ReleaseLast(i: nat, k: nat, j: nat)
      requires Valid() && i < |segments| && SegmentValid(segments[i]) && k in segments[i].pages
      requires j < |segments[i].pages[k].used| && segments[i].pages[k].used[j]
      requires segments[i].pages[k].avail + 1 == |segments[i].pages[k].used|
      modifies this
      ensures ValidExcept({PageHandle(i, k)}) && i < |segments| && k in segments[i].pages
      ensures CountUsed(segments[i].pages[k].used) == 0
      ensures segments[i].pages[k].blockSize == old(segments[i].pages[k].blockSize)
      ensures live == old(live) - {BlockOffset(i, k, j, old(segments[i].pages[k].blockSize))}
      ensures allocatedBytes + old(segments[i].pages[k].blockSize) == old(allocatedBytes)
      ensures capacity == old(capacity) && added == old(added) && addedSegs == old(addedSegs)
    {
      var p := segments[i].pages[k];
      UsedBlock(segments, i, k, j);
      live := live - {BlockOffset(i, k, j, p.blockSize)};
      segments := WithPage(segments, i, k, Release(p, j));
      allocatedBytes := allocatedBytes - p.blockSize;
      ReleaseLastTransition(old(segments), freePages, spareSegs, addedSegs, capacity, old(allocatedBytes), old(live),
                            i, k, j, segments, allocatedBytes, live);
    }

    /** Free: the block at offset, handed out by Malloc(sz), is no longer allocated and the
        byte counter drops by its size. The block is found from the offset alone: its segment
        is offset >> 28, its page and block follow from the offset inside the segment. Its
        page goes back on its bin's free list if it was full, and back to its segment
        (FreePage) if the block was its last one. */
    method Free(offset: nat, sz: nat)
      requires Valid() && sz > 0 && offset in live && live[offset] == GoodSize(sz)
      modifies this
      ensures Valid()
      ensures live == old(live) - {offset}
      ensures allocatedBytes + GoodSize(sz) == old(allocatedBytes)
      ensures capacity == old(capacity) && added == old(added) && addedSegs == old(addedSegs)
    {
      ghost var gi, gk, gj := FreeLocate(segments, live, offset);
      var i := ToSegDescr(offset);
      var delta := offset % kExtAlignment;
      var k := PageKey(segments[i].cls, delta);
      var p := segments[i].pages[k];
      var j := (delta - k) / p.blockSize;
      if p.avail + 1 == |p.used| {
        ReleaseLast(i, k, j);
        FreePage(i, k, p.blockSize);
      } else {
        ReleaseInPage(i, k, j);
      }
    }

    /** AddStorage: the extent [offset, offset + size), which must start where the storage
        added so far ends, on a segment boundary, is queued for segments to be made from.
        Once a whole segment is pending, a segment can be made. */
    method AddStorage(offset: nat, size: nat)
      requires Valid() && offset % kExtAlignment == 0 && offset == capacity
      modifies this
      ensures Valid()
      ensures capacity == old(capacity) + size && added == old(added) + [Extent(offset, size)]
      ensures addedSegs == if size == 0 then old(addedSegs) else old(addedSegs) + [Extent(offset, size)]
      ensures segments == old(segments) && freePages == old(freePages) && spareSegs == old(spareSegs)
      ensures allocatedBytes == old(allocatedBytes) && live == old(live)
      ensures size >= kExtAlignment ==> CanClaim(addedSegs)
    {
      ContiguousAppend(added, 0, capacity, Extent(offset, size));
      if size > 0 {
        AddStep(segments, freePages, spareSegs, addedSegs, capacity, allocatedBytes, size);
        if size >= kExtAlignment {
          DivModUnique(|segments| * kExtAlignment, kExtAlignment, |segments|, 0);
          AddProgress(addedSegs, |segments| * kExtAlignment, capacity, size);
        }
        addedSegs := addedSegs + [Extent(offset, size)];
      }
      added := added + [Extent(offset, size)];
      capacity := capacity + size;
    }
  }

  /** Every allocation lies inside one segment, the one its offset >> 28 names, and inside
      the storage added. */
  lemma {:induction false} LiveInStorage(a: ExternalAllocator, o: nat)
    requires a.Valid() && o in a.live
    ensures ToSegDescr(o) < |a.segments|
    ensures o + a.live[o] <= (ToSegDescr(o) + 1) * kExtAlignment <= a.capacity
  {
    assert LiveBlock(a.segments, o) == Some(a.live[o]);
    LiveInSegment(a.segments, o);
    MulGap(ToSegDescr(o), |a.segments|, kExtAlignment);
    ContiguousTotal(a.addedSegs, |a.segments| * kExtAlignment, a.capacity);
  }

  /** Allocations never overlap. */
  lemma {:induction false} LiveNoOverlap(a: ExternalAllocator, o1: nat, o2: nat)
    requires a.Valid() && o1 in a.live && o2 in a.live && o1 < o2
    ensures o1 + a.live[o1] <= o2
  {
    assert LiveBlock(a.segments, o1) == Some(a.live[o1]);
    assert LiveBlock(a.segments, o2) == Some(a.live[o2]);
    LiveDisjoint(a.segments, o1, o2);
  }

  /** The protocol a caller follows: on a negative result, add the storage asked for at the
      end of the storage and call Malloc again, which then succeeds. */
  method MallocWithStorage(a: ExternalAllocator, sz: nat) returns (r: int)
    requires a.Valid() && 0 < sz <= kExtAlignment && a.capacity % kExtAlignment == 0
    modifies a
    ensures a.Valid() && r >= 0
    ensures r !in old(a.live) && a.live == old(a.live)[r := GoodSize(sz)]
    ensures a.allocatedBytes == old(a.allocatedBytes) + GoodSize(sz)
  {
    r := a.Malloc(sz);
    if r < 0 {
      a.AddStorage(a.capacity, -r);
      r := a.Malloc(sz);
    }
  }
}
