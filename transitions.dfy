/** The allocator's operations as transitions of its state, each proved to keep the
    invariant and to change the allocations exactly as the operation promises. Each
    transition relates a state (segs, fl, sp, pending, cap, bytes, live) to the state its
    operation leaves (the primed parameters); the allocator class performs these
    transitions on its fields. */
module Transitions {
  import opened SizeClass
  import opened Pages
  import opened Segments
  import opened Extents
  import opened Handles
  import opened Wrappers
  import opened AllocState

  /** A request of at most one segment fits the page class and the bin it is classified into. */
  lemma {:induction false} RequestFits(sz: nat)
    requires sz <= kExtAlignment
    ensures Fits(ClassOf(sz), BinOf(sz), GoodSize(sz)) && 0 < GoodSize(sz) <= kExtAlignment
  {
    ClassOfBinOf(sz);
    GoodSizeBounded(sz);
  }

  /** GetNewSegment's transition: the lowest pending segment of storage, at offset
      |segs| << 28, becomes a fresh segment of class cls, listed as spare; no allocation changes. */
  lemma {:induction false} ClaimTransition(segs: seq<Segment>, fl: seq<seq<nat>>, sp: seq<seq<nat>>,
                                           pending: seq<Extent>, cap: nat, bytes: nat,
                                           live: map<nat, nat>, cls: PageClass,
                                           segs': seq<Segment>, sp': seq<seq<nat>>, pending': seq<Extent>)
    requires Inv(segs, fl, sp, pending, cap, bytes, {}) && Coupled(segs, live) && CanClaim(pending)
    requires segs' == segs + [EmptySegment(cls)]
    requires sp' == sp[ClassIndex(cls) := [|segs|] + sp[ClassIndex(cls)]]
    requires pending' == Claim(pending)
    ensures Inv(segs', fl, sp', pending', cap, bytes, {}) && Coupled(segs', live)
    ensures ToSegDescr(pending[0].offset) == |segs|
  {
    ClaimStep(segs, fl, sp, pending, cap, bytes, cls);
    AppendFrame(segs, cls);
    CoupledFrame(segs, segs', live);
    HandleDecode(|segs|, 0);
  }

  /** The spare list of a class names segments of that class. */
  lemma {:induction false} SparesOfClass(segs: seq<Segment>, sp: seq<seq<nat>>, cls: PageClass)
    requires SparesValid(segs, sp)
    ensures var L := sp[ClassIndex(cls)];
            forall t :: 0 <= t < |L| ==> L[t] < |segs| && segs[L[t]].cls == cls
  {
    var L := sp[ClassIndex(cls)];
    forall t | 0 <= t < |L|
      ensures L[t] < |segs| && segs[L[t]].cls == cls
    {
      assert SpareOf(segs, L[t], ClassIndex(cls));
    }
  }

  /** FindPage's transition: a fresh page of bin `bin`, at handle h, is carved at the cursor
      of segment x, where no page was; the segment leaves its spare list once it is full. The
      page is on no free list and no allocation changes. */
  lemma {:induction false} CarveTransition(segs: seq<Segment>, fl: seq<seq<nat>>, sp: seq<seq<nat>>,
                                           pending: seq<Extent>, cap: nat, bytes: nat,
                                           live: map<nat, nat>, x: nat, bin: nat, bs: nat,
                                           segs': seq<Segment>, sp': seq<seq<nat>>, h: nat)
    requires Inv(segs, fl, sp, pending, cap, bytes, {}) && Coupled(segs, live)
    requires x < |segs| && Fits(segs[x].cls, bin, bs) && bs > 0 && HasRoom(segs[x], bs)
    requires var s := segs[x];
             var s' := Carve(s, NewPage(bin, bs, CarveUnit(s.cls, bs)));
             var c := ClassIndex(s.cls);
             && segs' == segs[x := s']
             && sp' == sp[c := if s'.cursor < kExtAlignment then sp[c] else Without(sp[c], x)]
             && h == PageHandle(x, s.cursor)
    ensures Inv(segs', fl, sp', pending, cap, bytes, {h}) && Coupled(segs', live)
    ensures ToSegDescr(h) == x && !IsPage(segs, h) && IsPage(segs', h)
    ensures PageAt(segs', h) == NewPage(bin, bs, CarveUnit(segs[x].cls, bs))
    ensures h !in fl[bin] && FreePageOf(segs', h, bin)
  {
    var s := segs[x];
    var p := NewPage(bin, bs, CarveUnit(s.cls, bs));
    CarveStep(segs, fl, sp, pending, cap, bytes, x, bin, bs);
    assert SegmentValid(s);
    CarvedPageValid(s, bin, bs);
    NewPageHasFree(bin, bs, CarveUnit(s.cls, bs));
    CarveFrame(segs, x, p);
    CoupledFrame(segs, segs', live);
    HandleDecode(x, s.cursor);
  }

  /** Malloc's transition for a freshly carved page h of bin b: it goes on the front of the
      bin's free list, still exempt from the page rules. */
  lemma {:induction false} PushTransition(segs: seq<Segment>, fl: seq<seq<nat>>, sp: seq<seq<nat>>,
                                          pending: seq<Extent>, cap: nat, bytes: nat, h: nat, b: nat,
                                          fl': seq<seq<nat>>)
    requires Inv(segs, fl, sp, pending, cap, bytes, {h})
    requires b < |fl| && h !in fl[b] && FreePageOf(segs, h, b)
    requires fl' == fl[b := [h] + fl[b]]
    ensures Inv(segs, fl', sp, pending, cap, bytes, {h})
    ensures b < |fl'| && fl'[b] != [] && fl'[b][0] == h
  {
    PushStep(segs, fl, sp, pending, cap, bytes, h, b);
  }

  /** The page at the head of a free list is a page of that bin with a free block. */
  lemma {:induction false} HeadPage(segs: seq<Segment>, fl: seq<seq<nat>>, sp: seq<seq<nat>>,
                                    pending: seq<Extent>, cap: nat, bytes: nat, ex: set<nat>, b: nat)
    requires Inv(segs, fl, sp, pending, cap, bytes, ex) && b < kNumSizeBins && fl[b] != []
    ensures var h := fl[b][0];
            && FreePageOf(segs, h, b) && Balanced(PageAt(segs, h))
            && (b < kLargeSizeBin ==> PageAt(segs, h).blockSize == BinSize(b))
  {
    var h := fl[b][0];
    assert h in fl[b];
    var i := ToSegDescr(h);
    assert SegmentValid(segs[i]);
    assert PageValid(segs[i].cls, h % kExtAlignment, PageAt(segs, h));
  }

  /** Malloc's transition on the page h at the head of the free list of bin b: its free block
      j, at offset r, becomes an allocation and the byte counter grows by the block size; the
      page leaves the list once it has no free block. */
  lemma {:induction false} AllocateTransition(segs: seq<Segment>, fl: seq<seq<nat>>, sp: seq<seq<nat>>,
                                              pending: seq<Extent>, cap: nat, bytes: nat, ex: set<nat>,
                                              live: map<nat, nat>, h: nat, b: nat, j: nat,
                                              segs': seq<Segment>, fl': seq<seq<nat>>, bytes': nat,
                                              live': map<nat, nat>, r: nat)
    requires Inv(segs, fl, sp, pending, cap, bytes, ex) && Coupled(segs, live) && ex <= {h}
    requires b < kNumSizeBins && fl[b] != [] && fl[b][0] == h
    requires IsPage(segs, h) && Balanced(PageAt(segs, h))
    requires j < |PageAt(segs, h).used| && !PageAt(segs, h).used[j]
    requires var p := PageAt(segs, h);
             var q := Occupy(p, j);
             && r == BlockOffset(ToSegDescr(h), h % kExtAlignment, j, p.blockSize)
             && segs' == WithPage(segs, ToSegDescr(h), h % kExtAlignment, q)
             && fl' == fl[b := if q.avail == 0 then fl[b][1..] else fl[b]]
             && bytes' == bytes + p.blockSize
             && live' == live[r := p.blockSize]
    ensures r !in live
    ensures Inv(segs', fl', sp, pending, cap, bytes', {}) && Coupled(segs', live')
  {
    HeadPage(segs, fl, sp, pending, cap, bytes, ex, b);
    var p := PageAt(segs, h);
    var i, k := ToSegDescr(h), h % kExtAlignment;
    assert PageHandle(i, k) == h;
    var q := Occupy(p, j);
    assert SegmentValid(segs[i]);
    var L := if q.avail == 0 then fl[b][1..] else fl[b];
    if q.avail == 0 {
      RelistedPop(fl[b]);
    } else {
      RelistedKeep(fl[b], h);
    }
    OccupyStep(segs, fl, sp, pending, cap, bytes, ex, i, k, j, L);
    OccupyView(segs, i, k, j, live);
  }

  /** Free's decoding of a live offset o: segment o >> 28, the page found from the offset
      inside the segment, and the block of that page, which is in use and as large as the
      allocation. */
  lemma {:induction false} FreeLocate(segs: seq<Segment>, live: map<nat, nat>, o: nat) returns (i: nat, k: nat, j: nat)
    requires SegmentsValid(segs) && Coupled(segs, live) && o in live
    ensures i == ToSegDescr(o) && i < |segs| && SegmentValid(segs[i])
    ensures k == PageKey(segs[i].cls, o % kExtAlignment) && k in segs[i].pages
    ensures segs[i].pages[k].blockSize > 0 && j == (o % kExtAlignment - k) / segs[i].pages[k].blockSize
    ensures j < |segs[i].pages[k].used| && segs[i].pages[k].used[j]
    ensures o == BlockOffset(i, k, j, segs[i].pages[k].blockSize) && live[o] == segs[i].pages[k].blockSize
  {
    assert LiveBlock(segs, o) == Some(live[o]);
    var l := Locate(segs, o).value;
    i, k, j := l.seg, l.key, l.block;
    assert SegmentValid(segs[i]);
  }

  /** A used block's page is balanced and its block size is part of the byte total. */
  lemma {:induction false} UsedBlock(segs: seq<Segment>, i: nat, k: nat, j: nat)
    requires SegmentsValid(segs) && i < |segs| && SegmentValid(segs[i]) && k in segs[i].pages
    requires j < |segs[i].pages[k].used| && segs[i].pages[k].used[j]
    ensures Balanced(segs[i].pages[k]) && segs[i].pages[k].blockSize <= SegsBytes(segs)
    ensures segs[i].pages[k].bin < kNumSizeBins
  {
    assert PageValid(segs[i].cls, k, segs[i].pages[k]);
    LocateBlock(segs, i, k, j);
    LiveBytes(segs, BlockOffset(i, k, j, segs[i].pages[k].blockSize));
  }

  /** Before Free's transition: the page of a used block is balanced, its bin has a free
      list and the byte counter covers the block. */
  lemma {:induction false} ReleaseReady(segs: seq<Segment>, fl: seq<seq<nat>>, sp: seq<seq<nat>>,
                                        pending: seq<Extent>, cap: nat, bytes: nat, i: nat, k: nat, j: nat)
    requires Inv(segs, fl, sp, pending, cap, bytes, {})
    requires i < |segs| && SegmentValid(segs[i]) && k in segs[i].pages
    requires j < |segs[i].pages[k].used| && segs[i].pages[k].used[j]
    ensures Balanced(segs[i].pages[k]) && segs[i].pages[k].blockSize <= bytes
    ensures segs[i].pages[k].bin < |fl|
  {
    UsedBlock(segs, i, k, j);
  }

  /** Free's transition when block j of page k of segment i is not the page's last one in
      use: the block leaves the allocations, the byte counter drops by its size and a page
      that was full goes on the front of its bin's free list. */
  lemma {:induction false} ReleaseTransition(segs: seq<Segment>, fl: seq<seq<nat>>, sp: seq<seq<nat>>,
                                             pending: seq<Extent>, cap: nat, bytes: nat,
                                             live: map<nat, nat>, i: nat, k: nat, j: nat,
                                             segs': seq<Segment>, fl': seq<seq<nat>>, bytes': nat,
                                             live': map<nat, nat>)
    requires Inv(segs, fl, sp, pending, cap, bytes, {}) && Coupled(segs, live)
    requires i < |segs| && SegmentValid(segs[i]) && k in segs[i].pages && Balanced(segs[i].pages[k])
    requires j < |segs[i].pages[k].used| && segs[i].pages[k].used[j]
    requires segs[i].pages[k].avail + 1 < |segs[i].pages[k].used| && segs[i].pages[k].bin < |fl|
    requires var p := segs[i].pages[k];
             && segs' == WithPage(segs, i, k, Release(p, j))
             && fl' == fl[p.bin := if p.avail == 0 then [PageHandle(i, k)] + fl[p.bin] else fl[p.bin]]
             && bytes' + p.blockSize == bytes
             && live' == live - {BlockOffset(i, k, j, p.blockSize)}
    ensures Inv(segs', fl', sp, pending, cap, bytes', {}) && Coupled(segs', live')
  {
    var p := segs[i].pages[k];
    var h := PageHandle(i, k);
    if p.avail == 0 {
      PageAtHandle(segs, i, k);
      assert !FreePageOf(segs, h, p.bin);
      RelistedPush(fl[p.bin], h);
    } else {
      assert Listed(segs, fl, {}, i, k);
      RelistedKeep(fl[p.bin], h);
    }
    var L := if p.avail == 0 then [h] + fl[p.bin] else fl[p.bin];
    ReleaseStep(segs, fl, sp, pending, cap, bytes, i, k, j, L);
    ReleaseView(segs, i, k, j, live);
  }

  /** Free's transition when block j was the last one in use on page k of segment i: the
      block leaves the allocations and the byte counter drops by its size; the page, now
      empty, is exempt from the page rules until FreePage takes it back. */
  lemma {:induction false} ReleaseLastTransition(segs: seq<Segment>, fl: seq<seq<nat>>, sp: seq<seq<nat>>,
                                                 pending: seq<Extent>, cap: nat, bytes: nat,
                                                 live: map<nat, nat>, i: nat, k: nat, j: nat,
                                                 segs': seq<Segment>, bytes': nat, live': map<nat, nat>)
    requires Inv(segs, fl, sp, pending, cap, bytes, {}) && Coupled(segs, live)
    requires i < |segs| && SegmentValid(segs[i]) && k in segs[i].pages && Balanced(segs[i].pages[k])
    requires j < |segs[i].pages[k].used| && segs[i].pages[k].used[j]
    requires segs[i].pages[k].avail + 1 == |segs[i].pages[k].used|
    requires var p := segs[i].pages[k];
             && segs' == WithPage(segs, i, k, Release(p, j))
             && bytes' + p.blockSize == bytes
             && live' == live - {BlockOffset(i, k, j, p.blockSize)}
    ensures Inv(segs', fl, sp, pending, cap, bytes', {PageHandle(i, k)}) && Coupled(segs', live')
    ensures i < |segs'| && k in segs'[i].pages && CountUsed(segs'[i].pages[k].used) == 0
    ensures segs'[i].pages[k].blockSize == segs[i].pages[k].blockSize
  {
    ReleaseLastStep(segs, fl, sp, pending, cap, bytes, i, k, j);
    ReleaseView(segs, i, k, j, live);
  }

  /** FreePage's transition: the empty page k of segment i leaves the free list of the bin
      of its block size, and its segment; a full segment becomes spare again. No allocation
      changes. */
  lemma {:induction false} DropTransition(segs: seq<Segment>, fl: seq<seq<nat>>, sp: seq<seq<nat>>,
                                          pending: seq<Extent>, cap: nat, bytes: nat,
                                          live: map<nat, nat>, i: nat, k: nat,
                                          segs': seq<Segment>, fl': seq<seq<nat>>, sp': seq<seq<nat>>)
    requires Inv(segs, fl, sp, pending, cap, bytes, {PageHandle(i, k)}) && Coupled(segs, live)
    requires i < |segs| && k in segs[i].pages && CountUsed(segs[i].pages[k].used) == 0
    requires var s' := Drop(segs[i], k);
             var c := ClassIndex(segs[i].cls);
             var bin := BinOf(segs[i].pages[k].blockSize);
             && segs' == segs[i := s']
             && fl' == fl[bin := Without(fl[bin], PageHandle(i, k))]
             && sp' == sp[c := if segs[i].cursor == kExtAlignment && s'.cursor < kExtAlignment
                               then [i] + sp[c] else sp[c]]
    ensures Inv(segs', fl', sp', pending, cap, bytes, {}) && Coupled(segs', live)
    ensures k !in segs'[i].pages
  {
    var s := segs[i];
    var p := s.pages[k];
    assert SegmentValid(s);
    assert BinOf(p.blockSize) == p.bin by {
      assert PageValid(s.cls, k, p);
      if p.bin < kLargeSizeBin {
        BinOfBinSize(p.bin);
      }
    }
    DropStep(segs, fl, sp, pending, cap, bytes, i, k);
    DropFrame(segs, i, k);
    CoupledFrame(segs, segs', live);
  }
}
