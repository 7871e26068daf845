/** The invariant that ties the allocator's bookkeeping together — segments, free-page
    lists, spare-segment lists, the pending-storage queue and the byte counter — and the
    state transitions Malloc, Free, AddStorage and their helpers are made of, proved to
    keep it. Everything here is on values; the allocator class applies these steps to its fields. */
module AllocState {
  import opened SizeClass
  import opened Pages
  import opened Segments
  import opened Extents
  import opened Handles
  import opened Wrappers

  /** Every page whose handle is not in ex has a block in use: a page whose last block is
      freed goes back to its segment. */
  ghost predicate NoEmptyPage(segs: seq<Segment>, ex: set<nat>)
  {
    forall i, k :: 0 <= i < |segs| && k in segs[i].pages && PageHandle(i, k) !in ex ==>
      CountUsed(segs[i].pages[k].used) > 0
  }

  /** free_pages_: list b holds, once each, the pages of bin b that have a free block, and
      every such page whose handle is not in ex is listed. */
  ghost predicate FreeListsValid(segs: seq<Segment>, fl: seq<seq<nat>>, ex: set<nat>)
  {
    && |fl| == kNumSizeBins
    && (forall b :: 0 <= b < |fl| ==> NoDup(fl[b]))
    && (forall b, h :: 0 <= b < |fl| && h in fl[b] ==> FreePageOf(segs, h, b))
    && (forall i: nat, k: nat :: Listed(segs, fl, ex, i, k))
  }

  /** Page k of segment i, if it has a free block and is not in ex, is on the list of its bin. */
  ghost predicate Listed(segs: seq<Segment>, fl: seq<seq<nat>>, ex: set<nat>, i: nat, k: nat)
  {
    (i < |segs| && k in segs[i].pages && segs[i].pages[k].avail > 0
     && segs[i].pages[k].bin < |fl| && PageHandle(i, k) !in ex) ==>
    PageHandle(i, k) in fl[segs[i].pages[k].bin]
  }

  /** h is a page of bin b with a free block. */
  ghost predicate FreePageOf(segs: seq<Segment>, h: nat, b: nat)
  {
    IsPage(segs, h) && PageAt(segs, h).bin == b && PageAt(segs, h).avail > 0
  }

  /** Segment x is of class c and its cursor has not reached the end. */
  ghost predicate SpareOf(segs: seq<Segment>, x: nat, c: nat)
  {
    x < |segs| && ClassIndex(segs[x].cls) == c && segs[x].cursor < kExtAlignment
  }

  /** sq_: list c holds, once each, exactly the segments of class c whose cursor has not
      reached the end of the segment. */
  ghost predicate SparesValid(segs: seq<Segment>, sp: seq<seq<nat>>)
  {
    && |sp| == 3
    && (forall c :: 0 <= c < |sp| ==> NoDup(sp[c]))
    && (forall c, x :: 0 <= c < |sp| && x in sp[c] ==> SpareOf(segs, x, c))
    && (forall x :: 0 <= x < |segs| && segs[x].cursor < kExtAlignment ==> x in sp[ClassIndex(segs[x].cls)])
  }

  /** The whole invariant, with the pages in ex exempt from the two page-list rules. The
      segments are the first |segs| segments of storage, the pending queue tiles the rest of
      [0, cap) and the byte counter is the total of the live blocks. */
  ghost predicate Inv(segs: seq<Segment>, fl: seq<seq<nat>>, sp: seq<seq<nat>>,
                      pending: seq<Extent>, cap: nat, bytes: nat, ex: set<nat>)
  {
    && SegmentsValid(segs)
    && NoEmptyPage(segs, ex)
    && FreeListsValid(segs, fl, ex)
    && SparesValid(segs, sp)
    && PendingValid(pending, |segs| * kExtAlignment, cap)
    && bytes == SegsBytes(segs)
  }

  /** The state of a fresh allocator. */
  lemma {:induction false} InitInv()
    ensures Inv([], seq(kNumSizeBins, _ => []), [[], [], []], [], 0, 0, {})
  {
    assert Contiguous([], 0, 0);
  }

  /** segs' differs from segs at most in page k of segment i. */
  ghost predicate AgreeExcept(segs: seq<Segment>, segs': seq<Segment>, i: nat, k: nat)
  {
    && |segs'| == |segs| && i < |segs|
    && segs'[i].cls == segs[i].cls
    && (forall t :: 0 <= t < |segs| && t != i ==> segs'[t] == segs[t])
    && (forall k' :: k' != k ==> (k' in segs'[i].pages <==> k' in segs[i].pages))
    && (forall k' :: k' != k && k' in segs[i].pages ==> segs'[i].pages[k'] == segs[i].pages[k'])
  }

  /** Distinct pages have distinct handles. */
  lemma {:induction false} HandleInjective(i: nat, k: nat, i': nat, k': nat)
    requires k < kExtAlignment && k' < kExtAlignment && PageHandle(i, k) == PageHandle(i', k')
    ensures i == i' && k == k'
  {
    HandleDecode(i, k);
    HandleDecode(i', k');
  }

  /** A handle other than that of page k of segment i names the same page before and after. */
  lemma {:induction false} OtherHandle(segs: seq<Segment>, segs': seq<Segment>, i: nat, k: nat, h: nat)
    requires AgreeExcept(segs, segs', i, k) && k < kExtAlignment && h != PageHandle(i, k)
    ensures IsPage(segs', h) <==> IsPage(segs, h)
    ensures IsPage(segs, h) ==> PageAt(segs', h) == PageAt(segs, h)
  {
  }

  /** Changing page k of segment i of bin b (its blocks, or whether it exists) and setting
      list b to L, which lists the page exactly when `present`, keeps the free lists valid. */
  lemma {:induction false} FreeListsStep(segs: seq<Segment>, segs': seq<Segment>, fl: seq<seq<nat>>,
                                         ex: set<nat>, ex': set<nat>, i: nat, k: nat, b: nat,
                                         L: seq<nat>, present: bool)
    requires SegmentsValid(segs) && SegmentsValid(segs') && AgreeExcept(segs, segs', i, k)
    requires k < kExtAlignment && b < kNumSizeBins && FreeListsValid(segs, fl, ex)
    requires k in segs[i].pages ==> segs[i].pages[k].bin == b
    requires k in segs'[i].pages ==> segs'[i].pages[k].bin == b
    requires ex <= {PageHandle(i, k)} && ex' <= {PageHandle(i, k)}
    requires present ==> k in segs'[i].pages && segs'[i].pages[k].avail > 0
    requires k in segs'[i].pages && segs'[i].pages[k].avail > 0 && PageHandle(i, k) !in ex' ==> present
    requires Relisted(L, fl[b], PageHandle(i, k), present)
    ensures FreeListsValid(segs', fl[b := L], ex')
  {
    var fl' := fl[b := L];
    FreeListsSound(segs, segs', fl, i, k, b, L, present);
    FreeListsComplete(segs, segs', fl, ex, ex', i, k, b, L, present, fl[b := L]);
    forall b' | 0 <= b' < |fl'|
      ensures NoDup(fl'[b'])
    {
    }
  }

  lemma {:induction false} FreeListsSound(segs: seq<Segment>, segs': seq<Segment>, fl: seq<seq<nat>>,
                                          i: nat, k: nat, b: nat, L: seq<nat>, present: bool)
    requires SegmentsValid(segs) && SegmentsValid(segs') && AgreeExcept(segs, segs', i, k)
    requires k < kExtAlignment && b < |fl| == kNumSizeBins
    requires forall b', h :: 0 <= b' < |fl| && h in fl[b'] ==> FreePageOf(segs, h, b')
    requires k in segs[i].pages ==> segs[i].pages[k].bin == b
    requires k in segs'[i].pages ==> segs'[i].pages[k].bin == b
    requires present ==> k in segs'[i].pages && segs'[i].pages[k].avail > 0
    requires Relisted(L, fl[b], PageHandle(i, k), present)
    ensures forall b', h :: 0 <= b' < |fl[b := L]| && h in fl[b := L][b'] ==> FreePageOf(segs', h, b')
  {
    var h := PageHandle(i, k);
    var fl' := fl[b := L];
    HandleDecode(i, k);
    forall b', y | 0 <= b' < |fl'| && y in fl'[b']
      ensures FreePageOf(segs', y, b')
    {
      if y == h {
        if k in segs'[i].pages {
          PageAtHandle(segs', i, k);
        }
      } else {
        assert y in fl[b'] && FreePageOf(segs, y, b');
        OtherHandle(segs, segs', i, k, y);
      }
    }
  }

  lemma {:induction false} FreeListsComplete(segs: seq<Segment>, segs': seq<Segment>, fl: seq<seq<nat>>,
                                             ex: set<nat>, ex': set<nat>, i: nat, k: nat, b: nat,
                                             L: seq<nat>, present: bool, fl': seq<seq<nat>>)
    requires SegmentsValid(segs) && AgreeExcept(segs, segs', i, k)
    requires k < kExtAlignment && b < kNumSizeBins && FreeListsValid(segs, fl, ex)
    requires ex <= {PageHandle(i, k)}
    requires k in segs'[i].pages ==> segs'[i].pages[k].bin == b
    requires k in segs'[i].pages && segs'[i].pages[k].avail > 0 && PageHandle(i, k) !in ex' ==> present
    requires Relisted(L, fl[b], PageHandle(i, k), present) && fl' == fl[b := L]
    ensures forall i': nat, k': nat :: Listed(segs', fl', ex', i', k')
  {
    forall i': nat, k': nat
      ensures Listed(segs', fl', ex', i', k')
    {
      if i' < |segs'| && k' in segs'[i'].pages && (i' != i || k' != k) {
        OtherPage(segs, segs', i, k, i', k');
        assert Listed(segs, fl, ex, i', k');
      }
    }
  }

  /** Any other page is untouched and has a handle other than that of page k of segment i. */
  lemma {:induction false} OtherPage(segs: seq<Segment>, segs': seq<Segment>, i: nat, k: nat, i': nat, k': nat)
    requires SegmentsValid(segs) && AgreeExcept(segs, segs', i, k) && k < kExtAlignment
    requires i' < |segs'| && k' in segs'[i'].pages && (i' != i || k' != k)
    ensures k' in segs[i'].pages && segs'[i'].pages[k'] == segs[i'].pages[k']
    ensures PageHandle(i', k') != PageHandle(i, k)
  {
    KeyInSegment(segs[i'], k');
    if PageHandle(i', k') == PageHandle(i, k) {
      HandleInjective(i', k', i, k);
    }
  }

  /** The same change keeps every page outside ex' in use. */
  lemma {:induction false} NoEmptyStep(segs: seq<Segment>, segs': seq<Segment>, ex: set<nat>, ex': set<nat>, i: nat, k: nat)
    requires SegmentsValid(segs) && AgreeExcept(segs, segs', i, k) && NoEmptyPage(segs, ex)
    requires k < kExtAlignment && ex <= {PageHandle(i, k)}
    requires k in segs'[i].pages && PageHandle(i, k) !in ex' ==> CountUsed(segs'[i].pages[k].used) > 0
    ensures NoEmptyPage(segs', ex')
  {
    forall i', k' | 0 <= i' < |segs'| && k' in segs'[i'].pages && PageHandle(i', k') !in ex'
      ensures CountUsed(segs'[i'].pages[k'].used) > 0
    {
      if i' != i || k' != k {
        OtherPage(segs, segs', i, k, i', k');
        assert PageHandle(i', k') !in ex;
      }
    }
  }

  /** Changing the cursor of segment x (and nothing else about the segments' classes and
      cursors) and setting its class's list to L, which lists x exactly when its cursor has not
      reached the end, keeps the spare lists valid. */
  lemma {:induction false} SparesStep(segs: seq<Segment>, segs': seq<Segment>, sp: seq<seq<nat>>, x: nat, L: seq<nat>)
    requires SparesValid(segs, sp) && |segs'| == |segs| && x < |segs| && segs'[x].cls == segs[x].cls
    requires forall t :: 0 <= t < |segs| && t != x ==> segs'[t].cls == segs[t].cls && segs'[t].cursor == segs[t].cursor
    requires Relisted(L, sp[ClassIndex(segs[x].cls)], x, segs'[x].cursor < kExtAlignment)
    ensures SparesValid(segs', sp[ClassIndex(segs[x].cls) := L])
  {
    var c := ClassIndex(segs[x].cls);
    var sp' := sp[c := L];
    forall c', y | 0 <= c' < |sp'| && y in sp'[c']
      ensures SpareOf(segs', y, c')
    {
      if c' != c {
        assert y in sp[c'] && SpareOf(segs, y, c');
        assert segs'[y].cls == segs[y].cls && segs'[y].cursor == segs[y].cursor;
      } else if y != x {
        assert y in sp[c] && SpareOf(segs, y, c);
        assert segs'[y].cls == segs[y].cls && segs'[y].cursor == segs[y].cursor;
      }
    }
    forall y | 0 <= y < |segs'| && segs'[y].cursor < kExtAlignment
      ensures y in sp'[ClassIndex(segs'[y].cls)]
    {
      if y != x {
        assert segs'[y].cls == segs[y].cls && segs'[y].cursor == segs[y].cursor;
      }
    }
    forall c' | 0 <= c' < |sp'|
      ensures NoDup(sp'[c'])
    {
    }
  }

  /** GetNewSegment's step: the lowest pending segment of storage becomes a fresh segment of
      class cls at the end of the table and is listed as a spare segment of its class. */
  lemma {:induction false} ClaimStep(segs: seq<Segment>, fl: seq<seq<nat>>, sp: seq<seq<nat>>,
                                     pending: seq<Extent>, cap: nat, bytes: nat, cls: PageClass)
    requires Inv(segs, fl, sp, pending, cap, bytes, {}) && CanClaim(pending)
    ensures var c := ClassIndex(cls);
            Inv(segs + [EmptySegment(cls)], fl, sp[c := [|segs|] + sp[c]], Claim(pending), cap, bytes, {})
  {
    var c := ClassIndex(cls);
    var segs' := segs + [EmptySegment(cls)];
    var sp' := sp[c := [|segs|] + sp[c]];
    AppendFrame(segs, cls);
    forall i: nat, k: nat
      ensures Listed(segs', fl, {}, i, k)
    {
      if i < |segs| {
        assert Listed(segs, fl, {}, i, k);
        assert segs'[i] == segs[i];
      }
    }
    forall b, h | 0 <= b < |fl| && h in fl[b]
      ensures FreePageOf(segs', h, b)
    {
      assert FreePageOf(segs, h, b);
      assert segs'[ToSegDescr(h)] == segs[ToSegDescr(h)];
    }
    forall y | y in sp[c]
      ensures y < |segs|
    {
      assert SpareOf(segs, y, c);
    }
    NoDupPush(|segs|, sp[c]);
    forall c', y | 0 <= c' < |sp'| && y in sp'[c']
      ensures SpareOf(segs', y, c')
    {
      if y != |segs| || c' != c {
        assert y in sp[c'] && SpareOf(segs, y, c');
        assert segs'[y] == segs[y];
      }
    }
    forall y | 0 <= y < |segs'| && segs'[y].cursor < kExtAlignment
      ensures y in sp'[ClassIndex(segs'[y].cls)]
    {
      if y < |segs| {
        assert segs'[y] == segs[y];
      }
    }
    forall c' | 0 <= c' < |sp'|
      ensures NoDup(sp'[c'])
    {
    }
    ClaimValid(pending, |segs| * kExtAlignment, cap);
    assert |segs'| * kExtAlignment == |segs| * kExtAlignment + kExtAlignment;
  }

  /** The spare list of a segment's class lists it exactly when its cursor has not reached the end. */
  lemma {:induction false} SpareListed(segs: seq<Segment>, sp: seq<seq<nat>>, x: nat)
    requires SparesValid(segs, sp) && x < |segs|
    ensures Relisted(sp[ClassIndex(segs[x].cls)], sp[ClassIndex(segs[x].cls)], x, segs[x].cursor < kExtAlignment)
  {
    var c := ClassIndex(segs[x].cls);
    if x in sp[c] {
      assert SpareOf(segs, x, c);
    }
    RelistedKeep(sp[c], x);
  }

  /** Segment i with page k replaced by q is segs with only that page changed. */
  lemma {:induction false} WithPageAgree(segs: seq<Segment>, i: nat, k: nat, q: Page)
    requires i < |segs|
    ensures AgreeExcept(segs, WithPage(segs, i, k, q), i, k)
  {
  }

  /** segs' is a valid table that differs from segs only in page k of segment i, whose bin is b;
      the exempt sets ex (before) and ex' (after) hold at most that page, and `present` says
      whether its bin lists it afterwards, which it must when it has a free block and is not exempt. */
  ghost predicate PageChange(segs: seq<Segment>, segs': seq<Segment>, i: nat, k: nat, b: nat,
                             ex: set<nat>, ex': set<nat>, present: bool)
  {
    && SegmentsValid(segs') && AgreeExcept(segs, segs', i, k) && k < kExtAlignment && b < kNumSizeBins
    && (k in segs[i].pages ==> segs[i].pages[k].bin == b)
    && (k in segs'[i].pages ==> segs'[i].pages[k].bin == b)
    && ex <= {PageHandle(i, k)} && ex' <= {PageHandle(i, k)}
    && (present ==> k in segs'[i].pages && segs'[i].pages[k].avail > 0)
    && (k in segs'[i].pages && segs'[i].pages[k].avail > 0 && PageHandle(i, k) !in ex' ==> present)
    && (k in segs'[i].pages && PageHandle(i, k) !in ex' ==> CountUsed(segs'[i].pages[k].used) > 0)
  }

  /** One page of one segment changes (its bitmap, or it appears or goes): the invariant is
      re-established by relisting that page in its bin and that segment in its class. */
  lemma {:induction false} PageStep(segs: seq<Segment>, segs': seq<Segment>, fl: seq<seq<nat>>, sp: seq<seq<nat>>,
                                    pending: seq<Extent>, cap: nat, bytes: nat, ex: set<nat>, ex': set<nat>,
                                    i: nat, k: nat, b: nat, L: seq<nat>, present: bool, Ls: seq<nat>,
                                    sp': seq<seq<nat>>, bytes': nat)
    requires Inv(segs, fl, sp, pending, cap, bytes, ex) && bytes' == SegsBytes(segs')
    requires PageChange(segs, segs', i, k, b, ex, ex', present)
    requires Relisted(L, fl[b], PageHandle(i, k), present)
    requires Relisted(Ls, sp[ClassIndex(segs[i].cls)], i, segs'[i].cursor < kExtAlignment)
    requires sp' == sp[ClassIndex(segs[i].cls) := Ls]
    ensures Inv(segs', fl[b := L], sp', pending, cap, bytes', ex')
  {
    NoEmptyStep(segs, segs', ex, ex', i, k);
    FreeListsStep(segs, segs', fl, ex, ex', i, k, b, L, present);
    SparesStep(segs, segs', sp, i, Ls);
  }

  /** Carving a fresh page of bin `bin` at the cursor of segment x adds one page, not yet on
      any list (present is false) and exempt until a block of it is taken. */
  lemma {:induction false} CarveChange(segs: seq<Segment>, x: nat, bin: nat, bs: nat)
    requires SegmentsValid(segs) && x < |segs| && Fits(segs[x].cls, bin, bs) && bs > 0 && HasRoom(segs[x], bs)
    ensures var s := segs[x];
            var p := NewPage(bin, bs, CarveUnit(s.cls, bs));
            var segs' := segs[x := Carve(s, p)];
            && PageChange(segs, segs', x, s.cursor, bin, {}, {PageHandle(x, s.cursor)}, false)
            && SegsBytes(segs') == SegsBytes(segs)
            && s.cursor < kExtAlignment && !IsPage(segs, PageHandle(x, s.cursor))
            && IsPage(segs', PageHandle(x, s.cursor)) && PageAt(segs', PageHandle(x, s.cursor)) == p
  {
    var s := segs[x];
    var p := NewPage(bin, bs, CarveUnit(s.cls, bs));
    var segs' := segs[x := Carve(s, p)];
    CarvedPageValid(s, bin, bs);
    CarveFrame(segs, x, p);
    assert AgreeExcept(segs, segs', x, s.cursor);
    HandleDecode(x, s.cursor);
    PageAtHandle(segs', x, s.cursor);
  }

  /** FindPage's carving step: a fresh page of bin `bin` is cut at the cursor of segment x.
      The page is new, so it is on no free list and exempt from the page rules until a
      block of it is taken; the segment leaves its spare list once it is full. */
  lemma {:induction false} CarveStep(segs: seq<Segment>, fl: seq<seq<nat>>, sp: seq<seq<nat>>,
                                     pending: seq<Extent>, cap: nat, bytes: nat, x: nat, bin: nat, bs: nat)
    requires Inv(segs, fl, sp, pending, cap, bytes, {})
    requires x < |segs| && Fits(segs[x].cls, bin, bs) && bs > 0 && HasRoom(segs[x], bs)
    ensures var s := segs[x];
            var p := NewPage(bin, bs, CarveUnit(s.cls, bs));
            var segs' := segs[x := Carve(s, p)];
            var c := ClassIndex(s.cls);
            var L := if Carve(s, p).cursor < kExtAlignment then sp[c] else Without(sp[c], x);
            && Inv(segs', fl, sp[c := L], pending, cap, bytes, {PageHandle(x, s.cursor)})
            && IsPage(segs', PageHandle(x, s.cursor)) && PageAt(segs', PageHandle(x, s.cursor)) == p
            && PageHandle(x, s.cursor) !in fl[bin]
  {
    var s := segs[x];
    var p := NewPage(bin, bs, CarveUnit(s.cls, bs));
    var s' := Carve(s, p);
    var segs' := segs[x := s'];
    var h := PageHandle(x, s.cursor);
    var c := ClassIndex(s.cls);
    CarveChange(segs, x, bin, bs);
    assert h !in fl[bin];
    RelistedKeep(fl[bin], h);
    assert fl[bin := fl[bin]] == fl;
    SpareListed(segs, sp, x);
    var Ls := if s'.cursor < kExtAlignment then sp[c] else Without(sp[c], x);
    if s'.cursor >= kExtAlignment {
      RelistedDrop(sp[c], x);
    }
    PageStep(segs, segs', fl, sp, pending, cap, bytes, {}, {h}, x, s.cursor, bin, fl[bin], false, Ls,
             sp[c := Ls], bytes);
  }

  /** Taking free block j of page k of segment i changes only that page, which stays non-empty. */
  lemma {:induction false} OccupyChange(segs: seq<Segment>, i: nat, k: nat, j: nat, ex: set<nat>)
    requires SegmentsValid(segs) && i < |segs| && k in segs[i].pages && ex <= {PageHandle(i, k)}
    requires j < |segs[i].pages[k].used| && !segs[i].pages[k].used[j]
    ensures Balanced(segs[i].pages[k])
    ensures var p := segs[i].pages[k];
            var q := Occupy(p, j);
            var segs' := WithPage(segs, i, k, q);
            && PageChange(segs, segs', i, k, p.bin, ex, {}, p.avail > 1)
            && SegsBytes(segs') == SegsBytes(segs) + p.blockSize
  {
    var p := segs[i].pages[k];
    assert SegmentValid(segs[i]) && PageValid(segs[i].cls, k, p);
    var q := Occupy(p, j);
    KeyInSegment(segs[i], k);
    OccupyBlock(segs, i, k, j);
    WithPageAgree(segs, i, k, q);
  }

  /** try_allocate on page k of segment i: block j becomes live, the byte counter grows by the
      block size, and the page's bin lists it exactly when it still has a free block. */
  lemma {:induction false} OccupyStep(segs: seq<Segment>, fl: seq<seq<nat>>, sp: seq<seq<nat>>,
                                      pending: seq<Extent>, cap: nat, bytes: nat, ex: set<nat>,
                                      i: nat, k: nat, j: nat, L: seq<nat>)
    requires Inv(segs, fl, sp, pending, cap, bytes, ex) && ex <= {PageHandle(i, k)}
    requires i < |segs| && SegmentValid(segs[i]) && k in segs[i].pages
    requires j < |segs[i].pages[k].used| && !segs[i].pages[k].used[j]
    requires Relisted(L, fl[segs[i].pages[k].bin], PageHandle(i, k), segs[i].pages[k].avail > 1)
    ensures var p := segs[i].pages[k];
            var segs' := WithPage(segs, i, k, Occupy(p, j));
            && Inv(segs', fl[p.bin := L], sp, pending, cap, bytes + p.blockSize, {})
  {
    var p := segs[i].pages[k];
    OccupyChange(segs, i, k, j, ex);
    var q := Occupy(p, j);
    var segs' := WithPage(segs, i, k, q);
    var c := ClassIndex(segs[i].cls);
    SpareListed(segs, sp, i);
    assert sp[c := sp[c]] == sp;
    PageStep(segs, segs', fl, sp, pending, cap, bytes, ex, {}, i, k, p.bin, L, p.avail > 1, sp[c],
             sp, bytes + p.blockSize);
  }

  /** Freeing used block j of page k of segment i changes only that page; it is exempt
      afterwards exactly when ex' says so, which it must be when the block was its last one. */
  lemma {:induction false} ReleaseChange(segs: seq<Segment>, i: nat, k: nat, j: nat, ex': set<nat>, present: bool)
    requires SegmentsValid(segs) && i < |segs| && k in segs[i].pages && ex' <= {PageHandle(i, k)}
    requires j < |segs[i].pages[k].used| && segs[i].pages[k].used[j]
    requires PageHandle(i, k) !in ex' ==> present && segs[i].pages[k].avail + 1 < |segs[i].pages[k].used|
    ensures Balanced(segs[i].pages[k])
    ensures var p := segs[i].pages[k];
            var q := Release(p, j);
            var segs' := WithPage(segs, i, k, q);
            && PageChange(segs, segs', i, k, p.bin, {}, ex', present)
            && SegsBytes(segs') + p.blockSize == SegsBytes(segs)
  {
    var p := segs[i].pages[k];
    assert SegmentValid(segs[i]) && PageValid(segs[i].cls, k, p);
    var q := Release(p, j);
    KeyInSegment(segs[i], k);
    ReleaseBlock(segs, i, k, j);
    WithPageAgree(segs, i, k, q);
  }

  /** Free's step on page k of segment i when the page keeps a block in use: block j stops
      being live, the byte counter drops by the block size and the page is listed in its bin,
      as it now has a free block. */
  lemma {:induction false} ReleaseStep(segs: seq<Segment>, fl: seq<seq<nat>>, sp: seq<seq<nat>>,
                                       pending: seq<Extent>, cap: nat, bytes: nat,
                                       i: nat, k: nat, j: nat, L: seq<nat>)
    requires Inv(segs, fl, sp, pending, cap, bytes, {})
    requires i < |segs| && SegmentValid(segs[i]) && k in segs[i].pages
    requires j < |segs[i].pages[k].used| && segs[i].pages[k].used[j]
    requires segs[i].pages[k].avail + 1 < |segs[i].pages[k].used|
    requires Relisted(L, fl[segs[i].pages[k].bin], PageHandle(i, k), true)
    ensures var p := segs[i].pages[k];
            var segs' := WithPage(segs, i, k, Release(p, j));
            && bytes >= p.blockSize
            && Inv(segs', fl[p.bin := L], sp, pending, cap, bytes - p.blockSize, {})
  {
    var p := segs[i].pages[k];
    ReleaseChange(segs, i, k, j, {}, true);
    var q := Release(p, j);
    var segs' := WithPage(segs, i, k, q);
    var c := ClassIndex(segs[i].cls);
    SpareListed(segs, sp, i);
    assert sp[c := sp[c]] == sp;
    PageStep(segs, segs', fl, sp, pending, cap, bytes, {}, {}, i, k, p.bin, L, true, sp[c],
             sp, bytes - p.blockSize);
  }

  /** Free's step when block j was the last one in use on its page: the page is left empty and
      is exempt from the page rules until FreePage takes it back; no list changes. */
  lemma {:induction false} ReleaseLastStep(segs: seq<Segment>, fl: seq<seq<nat>>, sp: seq<seq<nat>>,
                                           pending: seq<Extent>, cap: nat, bytes: nat, i: nat, k: nat, j: nat)
    requires Inv(segs, fl, sp, pending, cap, bytes, {})
    requires i < |segs| && SegmentValid(segs[i]) && k in segs[i].pages
    requires j < |segs[i].pages[k].used| && segs[i].pages[k].used[j]
    requires segs[i].pages[k].avail + 1 == |segs[i].pages[k].used|
    ensures var p := segs[i].pages[k];
            var q := Release(p, j);
            var segs' := WithPage(segs, i, k, q);
            && bytes >= p.blockSize && CountUsed(q.used) == 0
            && Inv(segs', fl, sp, pending, cap, bytes - p.blockSize, {PageHandle(i, k)})
  {
    var p := segs[i].pages[k];
    var h := PageHandle(i, k);
    ReleaseChange(segs, i, k, j, {h}, h in fl[p.bin]);
    var q := Release(p, j);
    var segs' := WithPage(segs, i, k, q);
    var c := ClassIndex(segs[i].cls);
    SpareListed(segs, sp, i);
    assert sp[c := sp[c]] == sp;
    RelistedKeep(fl[p.bin], h);
    assert fl[p.bin := fl[p.bin]] == fl;
    PageStep(segs, segs', fl, sp, pending, cap, bytes, {}, {h}, i, k, p.bin, fl[p.bin], h in fl[p.bin], sp[c],
             sp, bytes - p.blockSize);
  }

  /** Dropping the empty page k of segment i removes only that page. */
  lemma {:induction false} DropChange(segs: seq<Segment>, i: nat, k: nat)
    requires SegmentsValid(segs) && i < |segs| && k in segs[i].pages
    requires CountUsed(segs[i].pages[k].used) == 0
    ensures var segs' := segs[i := Drop(segs[i], k)];
            && PageChange(segs, segs', i, k, segs[i].pages[k].bin, {PageHandle(i, k)}, {}, false)
            && SegsBytes(segs') == SegsBytes(segs)
  {
    var segs' := segs[i := Drop(segs[i], k)];
    assert SegmentValid(segs[i]) && PageValid(segs[i].cls, k, segs[i].pages[k]);
    KeyInSegment(segs[i], k);
    DropFrame(segs, i, k);
    DropAgree(segs, i, k);
  }

  lemma {:induction false} DropAgree(segs: seq<Segment>, i: nat, k: nat)
    requires i < |segs|
    ensures AgreeExcept(segs, segs[i := Drop(segs[i], k)], i, k)
  {
  }

  /** FreePage's step: the empty page k of segment i is taken off its bin's list and returned
      to its segment; a segment that becomes empty starts carving afresh and is listed as spare again. */
  lemma {:induction false} DropStep(segs: seq<Segment>, fl: seq<seq<nat>>, sp: seq<seq<nat>>,
                                    pending: seq<Extent>, cap: nat, bytes: nat, i: nat, k: nat)
    requires i < |segs| && SegmentValid(segs[i]) && k in segs[i].pages
    requires Inv(segs, fl, sp, pending, cap, bytes, {PageHandle(i, k)})
    requires CountUsed(segs[i].pages[k].used) == 0
    ensures var p := segs[i].pages[k];
            var s' := Drop(segs[i], k);
            var segs' := segs[i := s'];
            var c := ClassIndex(segs[i].cls);
            var L := if segs[i].cursor == kExtAlignment && s'.cursor < kExtAlignment then [i] + sp[c] else sp[c];
            && Inv(segs', fl[p.bin := Without(fl[p.bin], PageHandle(i, k))], sp[c := L], pending, cap, bytes, {})
  {
    var p := segs[i].pages[k];
    var s' := Drop(segs[i], k);
    var segs' := segs[i := s'];
    var c := ClassIndex(segs[i].cls);
    var h := PageHandle(i, k);
    DropChange(segs, i, k);
    RelistedDrop(fl[p.bin], h);
    SpareListed(segs, sp, i);
    var Ls := if segs[i].cursor == kExtAlignment && s'.cursor < kExtAlignment then [i] + sp[c] else sp[c];
    if segs[i].cursor == kExtAlignment && s'.cursor < kExtAlignment {
      RelistedPush(sp[c], i);
    }
    PageStep(segs, segs', fl, sp, pending, cap, bytes, {h}, {}, i, k, p.bin, Without(fl[p.bin], h), false, Ls,
             sp[c := Ls], bytes);
  }

  /** Malloc's step for a freshly carved page: it goes on the front of its bin's free list,
      still exempt from the page rules as none of its blocks is in use yet. */
  lemma {:induction false} PushStep(segs: seq<Segment>, fl: seq<seq<nat>>, sp: seq<seq<nat>>,
                                    pending: seq<Extent>, cap: nat, bytes: nat, h: nat, b: nat)
    requires Inv(segs, fl, sp, pending, cap, bytes, {h})
    requires b < |fl| && h !in fl[b] && FreePageOf(segs, h, b)
    ensures Inv(segs, fl[b := [h] + fl[b]], sp, pending, cap, bytes, {h})
  {
    var fl' := fl[b := [h] + fl[b]];
    NoDupPush(h, fl[b]);
    forall b' | 0 <= b' < |fl'|
      ensures NoDup(fl'[b'])
    {
      if b' != b {
        assert fl'[b'] == fl[b'];
      }
    }
    forall b', h' | 0 <= b' < |fl'| && h' in fl'[b']
      ensures FreePageOf(segs, h', b')
    {
      if b' != b || h' != h {
        assert h' in fl[b'];
      }
    }
    forall i: nat, k: nat
      ensures Listed(segs, fl', {h}, i, k)
    {
      assert Listed(segs, fl, {h}, i, k);
    }
  }

  /** AddStorage's step: an extent starting where the storage ends joins the pending queue. */
  lemma {:induction false} AddStep(segs: seq<Segment>, fl: seq<seq<nat>>, sp: seq<seq<nat>>,
                                   pending: seq<Extent>, cap: nat, bytes: nat, size: nat)
    requires Inv(segs, fl, sp, pending, cap, bytes, {}) && cap % kExtAlignment == 0 && size > 0
    ensures Inv(segs, fl, sp, pending + [Extent(cap, size)], cap + size, bytes, {})
  {
    AddValid(pending, |segs| * kExtAlignment, cap, size);
  }
}
