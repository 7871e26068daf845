/** Segment descriptors: one per 256 MiB range of the backing storage, segment i
    covering [i * kExtAlignment, (i + 1) * kExtAlignment). A segment is bound to one
    page class when it is created and carves pages from its start with a cursor;
    its live pages are kept in a map from their offset inside the segment. */
module Segments {
  import opened SizeClass
  import opened Pages
  import opened Wrappers

  datatype Segment = Segment(cls: PageClass, cursor: nat, pages: map<nat, Page>)

  /** Where a block lives: segment index, page offset inside the segment, block index in the page. */
  datatype Loc = Loc(seg: nat, key: nat, block: nat)

  /** Offset inside its segment of the page that holds in-segment offset delta: SMALL and
      MEDIUM pages sit on multiples of their unit, a LARGE page starts at its only block. */
  function PageKey(cls: PageClass, delta: nat): (k: nat)
    ensures k <= delta
  {
    match cls
    case SmallP => delta - delta % kSmallPageSize
    case MediumP => delta - delta % kMediumPageSize
    case LargeP => delta
  }

  /** Absolute offset of block j of the page at offset k of segment i. */
  function BlockOffset(i: nat, k: nat, j: nat, blockSize: nat): nat
  {
    i * kExtAlignment + k + j * blockSize
  }

  /** A page of a segment of class cls, carved at offset k: its bin belongs to the class,
      its block size is its bin's, its size is the class's unit and its bitmap covers it. */
  ghost predicate PageValid(cls: PageClass, k: nat, p: Page)
  {
    && 0 < p.blockSize <= p.size
    && p.bin < kNumSizeBins && ClassOfBin(p.bin) == cls
    && (p.bin < kLargeSizeBin ==> p.blockSize == BinSize(p.bin))
    && (p.bin == kLargeSizeBin ==> kMaxMediumBlock < p.blockSize)
    && p.size == CarveUnit(cls, p.blockSize)
    && |p.used| == p.size / p.blockSize
    && Balanced(p)
    && (cls != LargeP ==> k % p.size == 0)
  }

  /** Pages lie below the cursor, do not overlap, and the cursor stays inside the segment. */
  ghost predicate SegmentValid(s: Segment)
  {
    && s.cursor <= kExtAlignment
    && (s.cls != LargeP ==> s.cursor % CarveUnit(s.cls, 0) == 0)
    && (forall k :: k in s.pages ==> PageValid(s.cls, k, s.pages[k]) && k + s.pages[k].size <= s.cursor)
    && (forall k1, k2 :: k1 in s.pages && k2 in s.pages && k1 < k2 ==> k1 + s.pages[k1].size <= k2)
  }

  ghost predicate SegmentsValid(segs: seq<Segment>)
  {
    forall i {:trigger SegmentValid(segs[i])} :: 0 <= i < |segs| ==> SegmentValid(segs[i])
  }

  /** Decodes an absolute offset into the block it addresses, if any: the segment is
      offset >> 28, the page is found from the offset inside the segment. */
  function Locate(segs: seq<Segment>, o: nat): (l: Option<Loc>)
    ensures l.Some? ==> && l.value.seg < |segs|
                        && l.value.key in segs[l.value.seg].pages
                        && l.value.block < |segs[l.value.seg].pages[l.value.key].used|
    ensures l.Some? ==> o == BlockOffset(l.value.seg, l.value.key, l.value.block,
                                         segs[l.value.seg].pages[l.value.key].blockSize)
  {
    var i := o / kExtAlignment;
    if i >= |segs| then None
    else
      var delta := o % kExtAlignment;
      var k := PageKey(segs[i].cls, delta);
      if k !in segs[i].pages then None
      else
        var p := segs[i].pages[k];
        if p.blockSize == 0 || (delta - k) % p.blockSize != 0 || (delta - k) / p.blockSize >= |p.used| then None
        else
          var j := (delta - k) / p.blockSize;
          assert delta - k == j * p.blockSize;
          Some(Loc(i, k, j))
  }

  /** The block size of the allocation live at offset o, or None when no allocation starts there. */
  function LiveBlock(segs: seq<Segment>, o: nat): Option<nat>
  {
    match Locate(segs, o)
    case None => None
    case Some(l) =>
      var p := segs[l.seg].pages[l.key];
      if p.used[l.block] then Some(p.blockSize) else None
  }

  lemma {:induction false} BlockInPage(j: nat, blockSize: nat, size: nat)
    requires 0 < blockSize && j < size / blockSize
    ensures j * blockSize + blockSize <= size
  {
    var n := size / blockSize;
    assert n * blockSize <= size;
    assert (j + 1) * blockSize <= n * blockSize by {
      assert j + 1 <= n;
    }
  }

  lemma {:induction false} MulGap(a: nat, c: nat, b: nat)
    ensures a < c ==> a * b + b <= c * b
    decreases c
  {
    if a < c {
      if a + 1 < c {
        MulGap(a, c - 1, b);
      }
      assert c * b == (c - 1) * b + b;
    }
  }

  /** Quotient and remainder are the unique q, r with x == q * b + r and 0 <= r < b. */
  lemma {:induction false} DivModUnique(x: nat, b: nat, q: nat, r: nat)
    requires 0 < b && r < b && x == q * b + r
    ensures x / b == q && x % b == r
  {
    var q', r' := x / b, x % b;
    assert x == q' * b + r';
    MulGap(q', q, b);
    MulGap(q, q', b);
  }

  /** The arithmetic of decoding block j of a valid page at offset k of segment i. */
  lemma {:induction false} BlockArith(cls: PageClass, i: nat, k: nat, j: nat, p: Page)
    requires PageValid(cls, k, p) && k + p.size <= kExtAlignment && j < |p.used|
    ensures var off := j * p.blockSize;
            && off + p.blockSize <= p.size
            && BlockOffset(i, k, j, p.blockSize) / kExtAlignment == i
            && BlockOffset(i, k, j, p.blockSize) % kExtAlignment == k + off
            && PageKey(cls, k + off) == k
            && off % p.blockSize == 0 && off / p.blockSize == j
  {
    var bs := p.blockSize;
    BlockInPage(j, bs, p.size);
    var off := j * bs;
    var delta := k + off;
    DivModUnique(BlockOffset(i, k, j, bs), kExtAlignment, i, delta);
    if cls == LargeP {
      DivModUnique(bs, bs, 1, 0);
    } else {
      DivModUnique(k, p.size, k / p.size, 0);
      DivModUnique(delta, p.size, k / p.size, off);
    }
    DivModUnique(off, bs, j, 0);
  }

  /** Encoding a block as an offset and decoding it again gives the same block. */
  lemma {:induction false} LocateBlock(segs: seq<Segment>, i: nat, k: nat, j: nat)
    requires i < |segs| && SegmentValid(segs[i])
    requires k in segs[i].pages && j < |segs[i].pages[k].used|
    ensures Locate(segs, BlockOffset(i, k, j, segs[i].pages[k].blockSize)) == Some(Loc(i, k, j))
  {
    BlockArith(segs[i].cls, i, k, j, segs[i].pages[k]);
  }

  /** Where a located block sits: inside its page, which sits inside its segment. */
  lemma {:induction false} LocatedBounds(segs: seq<Segment>, o: nat)
    requires SegmentsValid(segs) && Locate(segs, o).Some?
    ensures var l := Locate(segs, o).value;
            var p := segs[l.seg].pages[l.key];
            && l.seg * kExtAlignment + l.key <= o
            && o + p.blockSize <= l.seg * kExtAlignment + l.key + p.size
            && l.key + p.size <= kExtAlignment
  {
    var l := Locate(segs, o).value;
    var p := segs[l.seg].pages[l.key];
    assert SegmentValid(segs[l.seg]);
    assert PageValid(segs[l.seg].cls, l.key, p);
    BlockInPage(l.block, p.blockSize, p.size);
  }

  /** A live block lies inside its segment, which is segment offset >> 28. */
  lemma {:induction false} LiveInSegment(segs: seq<Segment>, o: nat)
    requires SegmentsValid(segs) && LiveBlock(segs, o).Some?
    ensures o / kExtAlignment < |segs|
    ensures o + LiveBlock(segs, o).value <= (o / kExtAlignment + 1) * kExtAlignment
  {
    LocatedBounds(segs, o);
  }

  /** Live blocks never overlap. */
  lemma {:induction false} LiveDisjoint(segs: seq<Segment>, o1: nat, o2: nat)
    requires SegmentsValid(segs) && LiveBlock(segs, o1).Some? && LiveBlock(segs, o2).Some? && o1 < o2
    ensures o1 + LiveBlock(segs, o1).value <= o2
  {
    var l1, l2 := Locate(segs, o1).value, Locate(segs, o2).value;
    LocatedBounds(segs, o1);
    LocatedBounds(segs, o2);
    var s := segs[l1.seg];
    var p1, p2 := s.pages[l1.key], segs[l2.seg].pages[l2.key];
    if l1.seg != l2.seg {
      MulGap(l1.seg, l2.seg, kExtAlignment);
      MulGap(l2.seg, l1.seg, kExtAlignment);
    } else if l1.key != l2.key {
      assert SegmentValid(s);
    } else {
      MulGap(l1.block, l2.block, p1.blockSize);
      MulGap(l2.block, l1.block, p1.blockSize);
    }
  }

  /** Total bytes handed out from the pages of m at the keys ks. */
  ghost function SumBytes(m: map<nat, Page>, ks: set<nat>): nat
    requires ks <= m.Keys
    decreases ks
  {
    if ks == {} then 0
    else
      var k :| k in ks;
      PageBytes(m[k]) + SumBytes(m, ks - {k})
  }

  /** Total bytes handed out from the pages of a map. */
  ghost function PagesBytes(m: map<nat, Page>): nat
  {
    SumBytes(m, m.Keys)
  }

  /** The sum does not depend on the order the keys are visited in. */
  lemma {:induction false} SumBytesRemove(m: map<nat, Page>, ks: set<nat>, k: nat)
    requires ks <= m.Keys && k in ks
    ensures SumBytes(m, ks) == PageBytes(m[k]) + SumBytes(m, ks - {k})
    decreases ks
  {
    var k' :| k' in ks && SumBytes(m, ks) == PageBytes(m[k']) + SumBytes(m, ks - {k'});
    if k' != k {
      var s1, s2 := ks - {k'}, ks - {k};
      SumBytesRemove(m, s1, k);
      SumBytesRemove(m, s2, k');
      assert s1 - {k} == s2 - {k'};
    }
  }

  /** The sum reads only the pages at the keys summed. */
  lemma {:induction false} SumBytesFrame(m: map<nat, Page>, m': map<nat, Page>, ks: set<nat>)
    requires ks <= m.Keys && ks <= m'.Keys
    requires forall k :: k in ks ==> m[k] == m'[k]
    ensures SumBytes(m, ks) == SumBytes(m', ks)
    decreases ks
  {
    if ks != {} {
      var k :| k in ks && SumBytes(m, ks) == PageBytes(m[k]) + SumBytes(m, ks - {k});
      SumBytesRemove(m', ks, k);
      SumBytesFrame(m, m', ks - {k});
    }
  }

  lemma {:induction false} PagesBytesRemove(m: map<nat, Page>, k: nat)
    requires k in m
    ensures PagesBytes(m) == PageBytes(m[k]) + PagesBytes(m - {k})
  {
    SumBytesRemove(m, m.Keys, k);
    assert (m - {k}).Keys == m.Keys - {k};
    SumBytesFrame(m, m - {k}, m.Keys - {k});
  }

  lemma {:induction false} PagesBytesUpdate(m: map<nat, Page>, k: nat, p: Page)
    ensures k in m ==> PagesBytes(m[k := p]) + PageBytes(m[k]) == PagesBytes(m) + PageBytes(p)
    ensures k !in m ==> PagesBytes(m[k := p]) == PagesBytes(m) + PageBytes(p)
  {
    var m' := m[k := p];
    var rest := m.Keys - {k};
    SumBytesRemove(m', m'.Keys, k);
    assert m'.Keys - {k} == rest;
    SumBytesFrame(m, m', rest);
    if k in m {
      SumBytesRemove(m, m.Keys, k);
    } else {
      assert m.Keys == rest;
    }
  }

  /** Total bytes handed out from all segments. */
  ghost function SegsBytes(segs: seq<Segment>): nat
  {
    if |segs| == 0 then 0 else SegsBytes(segs[..|segs| - 1]) + PagesBytes(segs[|segs| - 1].pages)
  }

  lemma {:induction false} SegsBytesUpdate(segs: seq<Segment>, i: nat, s: Segment)
    requires i < |segs|
    ensures SegsBytes(segs[i := s]) + PagesBytes(segs[i].pages) == SegsBytes(segs) + PagesBytes(s.pages)
    decreases |segs|
  {
    var n := |segs| - 1;
    if i < n {
      assert segs[i := s][..n] == segs[..n][i := s];
      SegsBytesUpdate(segs[..n], i, s);
    } else {
      assert segs[i := s][..n] == segs[..n];
    }
  }

  lemma {:induction false} SegsBytesAppend(segs: seq<Segment>, s: Segment)
    ensures SegsBytes(segs + [s]) == SegsBytes(segs) + PagesBytes(s.pages)
  {
    assert (segs + [s])[..|segs|] == segs;
  }

  /** A sum that is not zero has a page with a block in use. */
  lemma {:induction false} SumBytesPositive(m: map<nat, Page>, ks: set<nat>)
    requires ks <= m.Keys && SumBytes(m, ks) > 0
    ensures exists k :: k in ks && CountUsed(m[k].used) > 0
    decreases ks
  {
    var k :| k in ks && SumBytes(m, ks) == PageBytes(m[k]) + SumBytes(m, ks - {k});
    if CountUsed(m[k].used) == 0 {
      assert PageBytes(m[k]) == 0;
      SumBytesPositive(m, ks - {k});
    }
  }

  /** Bytes handed out come from a page with a block in use. */
  lemma {:induction false} SegsBytesPositive(segs: seq<Segment>)
    requires SegsBytes(segs) > 0
    ensures exists i, k :: 0 <= i < |segs| && k in segs[i].pages && CountUsed(segs[i].pages[k].used) > 0
    decreases |segs|
  {
    var n := |segs| - 1;
    if SegsBytes(segs[..n]) > 0 {
      SegsBytesPositive(segs[..n]);
      var i, k :| 0 <= i < n && k in segs[..n][i].pages && CountUsed(segs[..n][i].pages[k].used) > 0;
      assert segs[..n][i] == segs[i];
    } else {
      var m := segs[n].pages;
      SumBytesPositive(m, m.Keys);
      var k :| k in m.Keys && CountUsed(m[k].used) > 0;
      assert k in segs[n].pages && CountUsed(segs[n].pages[k].used) > 0;
    }
  }

  /** A live block's bytes are part of the total. */
  lemma {:induction false} LiveBytes(segs: seq<Segment>, o: nat)
    requires SegmentsValid(segs) && LiveBlock(segs, o).Some?
    ensures 0 < LiveBlock(segs, o).value <= SegsBytes(segs)
  {
    var l := Locate(segs, o).value;
    var m := segs[l.seg].pages;
    var p := m[l.key];
    assert SegmentValid(segs[l.seg]) && PageValid(segs[l.seg].cls, l.key, p);
    CountUsedSome(p.used, l.block);
    assert PageBytes(p) >= p.blockSize by {
      MulGap(0, CountUsed(p.used), p.blockSize);
    }
    PagesBytesRemove(m, l.key);
    var e := segs[l.seg].(pages := map[]);
    assert e.pages.Keys == {};
    SegsBytesUpdate(segs, l.seg, e);
  }

  /** No block is live exactly when no byte is handed out. */
  lemma {:induction false} BytesZeroIffNoLive(segs: seq<Segment>)
    requires SegmentsValid(segs)
    ensures SegsBytes(segs) == 0 <==> forall o :: LiveBlock(segs, o) == None
  {
    forall o | LiveBlock(segs, o).Some?
      ensures SegsBytes(segs) > 0
    {
      LiveBytes(segs, o);
    }
    if SegsBytes(segs) > 0 {
      SegsBytesPositive(segs);
      var i, k :| 0 <= i < |segs| && k in segs[i].pages && CountUsed(segs[i].pages[k].used) > 0;
      CountUsedSet(segs[i].pages[k].used);
      var t :| 0 <= t < |segs[i].pages[k].used| && segs[i].pages[k].used[t];
      assert SegmentValid(segs[i]);
      LocateBlock(segs, i, k, t);
      assert LiveBlock(segs, BlockOffset(i, k, t, segs[i].pages[k].blockSize)).Some?;
    }
  }

  /** Segment i with page k replaced by q. */
  function WithPage(segs: seq<Segment>, i: nat, k: nat, q: Page): seq<Segment>
    requires i < |segs|
  {
    segs[i := segs[i].(pages := segs[i].pages[k := q])]
  }

  /** Setting bit j of one page to v changes the liveness of block j of that page and of no other offset. */
  lemma {:induction false} FlipBit(segs: seq<Segment>, i: nat, k: nat, j: nat, q: Page)
    requires SegmentsValid(segs) && i < |segs| && k in segs[i].pages
    requires var p := segs[i].pages[k];
             j < |p.used| == |q.used| && q == p.(used := p.used[j := q.used[j]], avail := q.avail) && Balanced(q)
    ensures var p := segs[i].pages[k];
            var segs' := WithPage(segs, i, k, q);
            var o := BlockOffset(i, k, j, p.blockSize);
            && SegmentsValid(segs')
            && LiveBlock(segs', o) == (if q.used[j] then Some(p.blockSize) else None)
            && LiveBlock(segs, o) == (if p.used[j] then Some(p.blockSize) else None)
            && forall o' :: o' != o ==> LiveBlock(segs', o') == LiveBlock(segs, o')
  {
    var p := segs[i].pages[k];
    var segs' := WithPage(segs, i, k, q);
    var o := BlockOffset(i, k, j, p.blockSize);
    ChangeBitmap(segs, i, k, q);
    LocateBlock(segs, i, k, j);
    forall o' | o' != o
      ensures LiveBlock(segs', o') == LiveBlock(segs, o')
    {
      FlipBitOther(segs, i, k, j, q, o');
    }
  }

  lemma {:induction false} FlipBitOther(segs: seq<Segment>, i: nat, k: nat, j: nat, q: Page, o': nat)
    requires SegmentsValid(segs) && i < |segs| && k in segs[i].pages
    requires var p := segs[i].pages[k];
             j < |p.used| == |q.used| && q == p.(used := p.used[j := q.used[j]], avail := q.avail) && Balanced(q)
    requires o' != BlockOffset(i, k, j, segs[i].pages[k].blockSize)
    ensures LiveBlock(WithPage(segs, i, k, q), o') == LiveBlock(segs, o')
  {
    var segs' := WithPage(segs, i, k, q);
    ChangeBitmap(segs, i, k, q);
    var l := Locate(segs, o');
    assert Locate(segs', o') == l;
    if l.Some? {
      assert l.value != Loc(i, k, j);
      assert segs'[l.value.seg].pages[l.value.key].used[l.value.block]
          == segs[l.value.seg].pages[l.value.key].used[l.value.block];
    }
  }

  /** Marking a free block used makes exactly that block live and adds its size to the total. */
  lemma {:induction false} OccupyBlock(segs: seq<Segment>, i: nat, k: nat, j: nat)
    requires SegmentsValid(segs) && i < |segs| && SegmentValid(segs[i]) && k in segs[i].pages
    requires j < |segs[i].pages[k].used| && !segs[i].pages[k].used[j]
    ensures var p := segs[i].pages[k];
            var segs' := WithPage(segs, i, k, Occupy(p, j));
            var o := BlockOffset(i, k, j, p.blockSize);
            && SegmentsValid(segs')
            && SegsBytes(segs') == SegsBytes(segs) + p.blockSize
            && LiveBlock(segs, o) == None && LiveBlock(segs', o) == Some(p.blockSize)
            && forall o' :: o' != o ==> LiveBlock(segs', o') == LiveBlock(segs, o')
  {
    var p := segs[i].pages[k];
    assert SegmentValid(segs[i]) && PageValid(segs[i].cls, k, p);
    var q := Occupy(p, j);
    FlipBit(segs, i, k, j, q);
    PagesBytesUpdate(segs[i].pages, k, q);
    SegsBytesUpdate(segs, i, WithPage(segs, i, k, q)[i]);
  }

  /** Marking a used block free makes exactly that block dead and takes its size off the total. */
  lemma {:induction false} ReleaseBlock(segs: seq<Segment>, i: nat, k: nat, j: nat)
    requires SegmentsValid(segs) && i < |segs| && SegmentValid(segs[i]) && k in segs[i].pages
    requires j < |segs[i].pages[k].used| && segs[i].pages[k].used[j]
    ensures var p := segs[i].pages[k];
            var segs' := WithPage(segs, i, k, Release(p, j));
            var o := BlockOffset(i, k, j, p.blockSize);
            && SegmentsValid(segs')
            && SegsBytes(segs') + p.blockSize == SegsBytes(segs)
            && LiveBlock(segs, o) == Some(p.blockSize) && LiveBlock(segs', o) == None
            && forall o' :: o' != o ==> LiveBlock(segs', o') == LiveBlock(segs, o')
  {
    var p := segs[i].pages[k];
    assert SegmentValid(segs[i]) && PageValid(segs[i].cls, k, p);
    var q := Release(p, j);
    FlipBit(segs, i, k, j, q);
    PagesBytesUpdate(segs[i].pages, k, q);
    SegsBytesUpdate(segs, i, WithPage(segs, i, k, q)[i]);
  }

  /** Replacing a page's bitmap by one of the same length (and its counter) keeps the
      segments valid and changes no decoding of offsets. */
  lemma {:induction false} ChangeBitmap(segs: seq<Segment>, i: nat, k: nat, q: Page)
    requires SegmentsValid(segs) && i < |segs| && k in segs[i].pages
    requires var p := segs[i].pages[k];
             q == p.(used := q.used, avail := q.avail) && |q.used| == |p.used| && Balanced(q)
    ensures SegmentsValid(WithPage(segs, i, k, q))
    ensures forall o :: Locate(WithPage(segs, i, k, q), o) == Locate(segs, o)
  {
    var segs' := WithPage(segs, i, k, q);
    SameShapeValid(segs[i], k, q);
    forall t | 0 <= t < |segs'|
      ensures SegmentValid(segs'[t])
    {
      if t != i {
        assert segs'[t] == segs[t];
      }
    }
    forall o
      ensures Locate(segs', o) == Locate(segs, o)
    {
      SameShapeLocate(segs, i, k, q, o);
    }
  }

  lemma {:induction false} SameShapeValid(s: Segment, k: nat, q: Page)
    requires SegmentValid(s) && k in s.pages
    requires var p := s.pages[k];
             q == p.(used := q.used, avail := q.avail) && |q.used| == |p.used| && Balanced(q)
    ensures SegmentValid(s.(pages := s.pages[k := q]))
  {
    SameShapePagesValid(s, k, q);
    var s' := s.(pages := s.pages[k := q]);
    forall k1, k2 | k1 in s'.pages && k2 in s'.pages && k1 < k2
      ensures k1 + s'.pages[k1].size <= k2
    {
      assert s'.pages[k1].size == s.pages[k1].size;
    }
  }

  /** Replacing a page's bitmap by a balanced one of the same length keeps every page valid
      and below the cursor. */
  lemma {:induction false} SameShapePagesValid(s: Segment, k: nat, q: Page)
    requires SegmentValid(s) && k in s.pages
    requires var p := s.pages[k];
             q == p.(used := q.used, avail := q.avail) && |q.used| == |p.used| && Balanced(q)
    ensures var s' := s.(pages := s.pages[k := q]);
            forall k' :: k' in s'.pages ==> PageValid(s'.cls, k', s'.pages[k']) && k' + s'.pages[k'].size <= s'.cursor
  {
    var s' := s.(pages := s.pages[k := q]);
    assert PageValid(s.cls, k, s.pages[k]);
    forall k' | k' in s'.pages
      ensures PageValid(s'.cls, k', s'.pages[k']) && k' + s'.pages[k'].size <= s'.cursor
    {
      if k' != k {
        assert s'.pages[k'] == s.pages[k'];
      }
    }
  }

  lemma {:induction false} SameShapeLocate(segs: seq<Segment>, i: nat, k: nat, q: Page, o: nat)
    requires i < |segs| && k in segs[i].pages
    requires var p := segs[i].pages[k];
             q == p.(used := q.used, avail := q.avail) && |q.used| == |p.used|
    ensures Locate(WithPage(segs, i, k, q), o) == Locate(segs, o)
  {
  }

  /** Handle of the page at offset k of segment i: its absolute offset. */
  function PageHandle(i: nat, k: nat): nat
  {
    i * kExtAlignment + k
  }

  /** ToSegDescr: the segment that owns an offset or a page handle is offset >> 28. */
  function ToSegDescr(h: nat): (i: nat)
    ensures i * kExtAlignment <= h < i * kExtAlignment + kExtAlignment
  {
    h / kExtAlignment
  }

  /** A page handle names its segment and its offset inside the segment. */
  lemma {:induction false} HandleDecode(i: nat, k: nat)
    requires k < kExtAlignment
    ensures ToSegDescr(PageHandle(i, k)) == i && PageHandle(i, k) % kExtAlignment == k
  {
    DivModUnique(PageHandle(i, k), kExtAlignment, i, k);
  }

  /** Every page of a valid segment starts inside it. */
  lemma {:induction false} KeyInSegment(s: Segment, k: nat)
    requires SegmentValid(s) && k in s.pages
    ensures k < s.cursor <= kExtAlignment
  {
    assert PageValid(s.cls, k, s.pages[k]);
  }

  /** The handle h names a live page. */
  predicate IsPage(segs: seq<Segment>, h: nat)
  {
    ToSegDescr(h) < |segs| && h % kExtAlignment in segs[ToSegDescr(h)].pages
  }

  function PageAt(segs: seq<Segment>, h: nat): Page
    requires IsPage(segs, h)
  {
    segs[ToSegDescr(h)].pages[h % kExtAlignment]
  }

  /** The handle of a page of a valid segment names that page. */
  lemma {:induction false} PageAtHandle(segs: seq<Segment>, i: nat, k: nat)
    requires i < |segs| && SegmentValid(segs[i]) && k in segs[i].pages
    ensures IsPage(segs, PageHandle(i, k)) && PageAt(segs, PageHandle(i, k)) == segs[i].pages[k]
  {
    KeyInSegment(segs[i], k);
    HandleDecode(i, k);
  }

  /** The segment after a page p is carved at its cursor. */
  function Carve(s: Segment, p: Page): (r: Segment)
    ensures r.cls == s.cls && r.cursor == s.cursor + p.size
    ensures r.pages.Keys == s.pages.Keys + {s.cursor} && r.pages[s.cursor] == p
  {
    s.(cursor := s.cursor + p.size, pages := s.pages[s.cursor := p])
  }

  /** The block size and bin of a page fit the class of the segment it is carved from. */
  ghost predicate Fits(cls: PageClass, bin: nat, blockSize: nat)
  {
    && bin < kNumSizeBins && ClassOfBin(bin) == cls
    && (bin < kLargeSizeBin ==> blockSize == BinSize(bin))
    && (bin == kLargeSizeBin ==> kMaxMediumBlock < blockSize)
  }

  /** The segment has room at its cursor for one more page of the given block size. */
  predicate HasRoom(s: Segment, blockSize: nat)
  {
    s.cursor + CarveUnit(s.cls, blockSize) <= kExtAlignment
  }

  /** A page carved at the cursor of a segment with room is a valid page of that segment. */
  lemma {:induction false} CarvedPageValid(s: Segment, bin: nat, blockSize: nat)
    requires SegmentValid(s) && Fits(s.cls, bin, blockSize) && blockSize > 0 && HasRoom(s, blockSize)
    ensures var p := NewPage(bin, blockSize, CarveUnit(s.cls, blockSize));
            PageValid(s.cls, s.cursor, p) && SegmentValid(Carve(s, p)) && s.cursor !in s.pages
  {
    var unit := CarveUnit(s.cls, blockSize);
    var p := NewPage(bin, blockSize, unit);
    if bin < kLargeSizeBin {
      BinSizePositive(bin);
      BinSizeAnchor(21);
      if bin < 21 {
        BinSizeMonotone(bin, 21);
      }
    }
    assert blockSize <= unit;
    assert PageValid(s.cls, s.cursor, p);
    CarveSegmentValid(s, p);
    if s.cursor in s.pages {
      KeyInSegment(s, s.cursor);
    }
  }

  lemma {:induction false} CarveSegmentValid(s: Segment, p: Page)
    requires SegmentValid(s) && PageValid(s.cls, s.cursor, p) && s.cursor + p.size <= kExtAlignment
    ensures SegmentValid(Carve(s, p))
  {
    CarveCursorAligned(s, p);
    CarvePagesBelow(s, p);
    CarvePagesApart(s, p);
  }

  /** After a carve the cursor of a SMALL or MEDIUM segment is still a multiple of its page unit. */
  lemma {:induction false} CarveCursorAligned(s: Segment, p: Page)
    requires s.cls != LargeP ==> s.cursor % CarveUnit(s.cls, 0) == 0
    requires PageValid(s.cls, s.cursor, p)
    ensures s.cls != LargeP ==> Carve(s, p).cursor % CarveUnit(s.cls, 0) == 0
  {
    if s.cls != LargeP {
      var u := CarveUnit(s.cls, 0);
      assert p.size == u;
      DivModAdd(s.cursor, u);
    }
  }

  /** Adding the modulus keeps a multiple a multiple. */
  lemma {:induction false} DivModAdd(x: nat, u: nat)
    requires u > 0 && x % u == 0
    ensures (x + u) % u == 0
  {
    assert x == x / u * u;
    assert x + u == (x / u + 1) * u;
    DivModUnique(x + u, u, x / u + 1, 0);
  }

  /** After a carve every page, the new one included, is valid and lies below the cursor. */
  lemma {:induction false} CarvePagesBelow(s: Segment, p: Page)
    requires SegmentValid(s) && PageValid(s.cls, s.cursor, p)
    ensures var s' := Carve(s, p);
            forall k :: k in s'.pages ==> PageValid(s'.cls, k, s'.pages[k]) && k + s'.pages[k].size <= s'.cursor
  {
    var s' := Carve(s, p);
    forall k | k in s'.pages
      ensures PageValid(s'.cls, k, s'.pages[k]) && k + s'.pages[k].size <= s'.cursor
    {
      if k != s.cursor {
        assert s'.pages[k] == s.pages[k];
      }
    }
  }

  /** After a carve the pages still do not overlap: the new one starts where the others end. */
  lemma {:induction false} CarvePagesApart(s: Segment, p: Page)
    requires SegmentValid(s)
    ensures var s' := Carve(s, p);
            forall k1, k2 :: k1 in s'.pages && k2 in s'.pages && k1 < k2 ==> k1 + s'.pages[k1].size <= k2
  {
    var s' := Carve(s, p);
    forall k1, k2 | k1 in s'.pages && k2 in s'.pages && k1 < k2
      ensures k1 + s'.pages[k1].size <= k2
    {
      if k2 == s.cursor {
        assert s'.pages[k1] == s.pages[k1];
      } else {
        KeyInSegment(s, k2);
        assert s'.pages[k1] == s.pages[k1];
      }
    }
  }

  /** Carving a page whose blocks are all free keeps the segments valid, hands out no
      bytes and makes no offset live. */
  lemma {:induction false} CarveFrame(segs: seq<Segment>, i: nat, p: Page)
    requires SegmentsValid(segs) && i < |segs| && segs[i].cursor !in segs[i].pages
    requires SegmentValid(Carve(segs[i], p)) && CountUsed(p.used) == 0
    ensures SegmentsValid(segs[i := Carve(segs[i], p)])
    ensures SegsBytes(segs[i := Carve(segs[i], p)]) == SegsBytes(segs)
    ensures forall o :: LiveBlock(segs[i := Carve(segs[i], p)], o) == LiveBlock(segs, o)
  {
    var segs' := segs[i := Carve(segs[i], p)];
    PagesBytesUpdate(segs[i].pages, segs[i].cursor, p);
    SegsBytesUpdate(segs, i, segs'[i]);
    forall o
      ensures LiveBlock(segs', o) == LiveBlock(segs, o)
    {
      NewPageFrame(segs, segs', i, segs[i].cursor, o);
    }
  }

  /** Adding or removing a page whose blocks are all free at key k of segment i changes
      the liveness of no offset. */
  lemma {:induction false} NewPageFrame(segs: seq<Segment>, segs': seq<Segment>, i: nat, k: nat, o: nat)
    requires i < |segs| == |segs'| && forall t :: 0 <= t < |segs| && t != i ==> segs'[t] == segs[t]
    requires segs'[i].cls == segs[i].cls
    requires forall k' :: k' != k ==> (k' in segs'[i].pages <==> k' in segs[i].pages)
    requires forall k' :: k' != k && k' in segs[i].pages ==> segs'[i].pages[k'] == segs[i].pages[k']
    requires k in segs[i].pages ==> CountUsed(segs[i].pages[k].used) == 0
    requires k in segs'[i].pages ==> CountUsed(segs'[i].pages[k].used) == 0
    ensures LiveBlock(segs', o) == LiveBlock(segs, o)
  {
    var t := o / kExtAlignment;
    if t < |segs| {
      var delta := o % kExtAlignment;
      var key := PageKey(segs[t].cls, delta);
      assert PageKey(segs'[t].cls, delta) == key;
      if t == i && key == k {
        var l := Locate(segs, o);
        if l.Some? {
          CountUsedZero(segs[i].pages[k].used, l.value.block);
        }
        var l' := Locate(segs', o);
        if l'.Some? {
          CountUsedZero(segs'[i].pages[k].used, l'.value.block);
        }
      }
    }
  }

  /** The segment after its page k is dropped; a segment left without pages starts carving afresh. */
  function Drop(s: Segment, k: nat): (r: Segment)
    ensures r.cls == s.cls && r.pages.Keys == s.pages.Keys - {k}
    ensures r.pages == map[] ==> r.cursor == 0
    ensures r.pages != map[] ==> r.cursor == s.cursor
  {
    var pages := s.pages - {k};
    s.(pages := pages, cursor := if |pages| == 0 then 0 else s.cursor)
  }

  /** Dropping an empty page keeps the segments valid, hands back no bytes and makes no offset dead. */
  lemma {:induction false} DropFrame(segs: seq<Segment>, i: nat, k: nat)
    requires SegmentsValid(segs) && i < |segs| && k in segs[i].pages
    requires CountUsed(segs[i].pages[k].used) == 0
    ensures SegmentsValid(segs[i := Drop(segs[i], k)])
    ensures SegsBytes(segs[i := Drop(segs[i], k)]) == SegsBytes(segs)
    ensures forall o :: LiveBlock(segs[i := Drop(segs[i], k)], o) == LiveBlock(segs, o)
  {
    var s := segs[i];
    var s' := Drop(s, k);
    var segs' := segs[i := s'];
    DropSegmentValid(s, k);
    UpdateValid(segs, i, s');
    DropBytes(s.pages, k);
    SegsBytesUpdate(segs, i, s');
    forall o
      ensures LiveBlock(segs', o) == LiveBlock(segs, o)
    {
      NewPageFrame(segs, segs', i, k, o);
    }
  }

  lemma {:induction false} DropBytes(m: map<nat, Page>, k: nat)
    requires k in m && CountUsed(m[k].used) == 0
    ensures PagesBytes(m - {k}) == PagesBytes(m)
  {
    PagesBytesRemove(m, k);
    assert PageBytes(m[k]) == 0 * m[k].blockSize;
  }

  /** Replacing one segment by a valid one keeps the table valid. */
  lemma {:induction false} UpdateValid(segs: seq<Segment>, i: nat, s: Segment)
    requires SegmentsValid(segs) && i < |segs| && SegmentValid(s)
    ensures SegmentsValid(segs[i := s])
  {
    var segs' := segs[i := s];
    forall t | 0 <= t < |segs'|
      ensures SegmentValid(segs'[t])
    {
      if t != i {
        assert segs'[t] == segs[t];
      }
    }
  }

  lemma {:induction false} DropSegmentValid(s: Segment, k: nat)
    requires SegmentValid(s)
    ensures SegmentValid(Drop(s, k))
  {
    var s' := Drop(s, k);
    forall k' | k' in s'.pages
      ensures PageValid(s'.cls, k', s'.pages[k']) && k' + s'.pages[k'].size <= s'.cursor
    {
      assert s'.pages[k'] == s.pages[k'];
    }
  }

  /** A fresh segment: bound to its class, nothing carved yet. */
  function EmptySegment(cls: PageClass): (s: Segment)
    ensures SegmentValid(s) && s.pages == map[] && s.cursor < kExtAlignment
  {
    Segment(cls, 0, map[])
  }

  /** Appending a fresh segment keeps the table valid, hands out no bytes and makes no offset live. */
  lemma {:induction false} AppendFrame(segs: seq<Segment>, cls: PageClass)
    requires SegmentsValid(segs)
    ensures SegmentsValid(segs + [EmptySegment(cls)])
    ensures SegsBytes(segs + [EmptySegment(cls)]) == SegsBytes(segs)
    ensures forall o :: LiveBlock(segs + [EmptySegment(cls)], o) == LiveBlock(segs, o)
  {
    var segs' := segs + [EmptySegment(cls)];
    forall t | 0 <= t < |segs'|
      ensures SegmentValid(segs'[t])
    {
      if t < |segs| {
        assert segs'[t] == segs[t];
      }
    }
    SegsBytesAppend(segs, EmptySegment(cls));
    assert EmptySegment(cls).pages.Keys == {};
    forall o
      ensures LiveBlock(segs', o) == LiveBlock(segs, o)
    {
      AppendLocate(segs, cls, o);
    }
  }

  /** An offset inside the appended segment addresses no block; any other offset addresses the same block as before. */
  lemma {:induction false} AppendLocate(segs: seq<Segment>, cls: PageClass, o: nat)
    ensures Locate(segs + [EmptySegment(cls)], o) == Locate(segs, o)
  {
    var segs' := segs + [EmptySegment(cls)];
    var t := o / kExtAlignment;
    if t < |segs| {
      assert segs'[t] == segs[t];
    } else if t == |segs| {
      assert segs'[t].pages == map[];
    }
  }

  /** live lists exactly the allocations: its keys are the offsets where a block is live,
      mapped to the block sizes. */
  ghost predicate Coupled(segs: seq<Segment>, live: map<nat, nat>)
  {
    forall o {:trigger LiveBlock(segs, o)} :: LiveBlock(segs, o) == (if o in live then Some(live[o]) else None)
  }

  /** No segment, no allocation. */
  lemma {:induction false} CoupledEmpty()
    ensures Coupled([], map[])
  {
    forall o
      ensures LiveBlock([], o) == None
    {
      assert ToSegDescr(o) >= 0;
    }
  }

  /** A change that makes no offset live or dead keeps the allocations. */
  lemma {:induction false} CoupledFrame(segs: seq<Segment>, segs': seq<Segment>, live: map<nat, nat>)
    requires Coupled(segs, live) && forall o :: LiveBlock(segs', o) == LiveBlock(segs, o)
    ensures Coupled(segs', live)
  {
    forall o
      ensures LiveBlock(segs', o) == (if o in live then Some(live[o]) else None)
    {
      assert LiveBlock(segs', o) == LiveBlock(segs, o);
    }
  }

  /** Taking free block j of page k of segment i adds exactly that block to the allocations. */
  lemma {:induction false} OccupyView(segs: seq<Segment>, i: nat, k: nat, j: nat, live: map<nat, nat>)
    requires SegmentsValid(segs) && i < |segs| && SegmentValid(segs[i]) && k in segs[i].pages
    requires j < |segs[i].pages[k].used| && !segs[i].pages[k].used[j] && Coupled(segs, live)
    ensures var p := segs[i].pages[k];
            var o := BlockOffset(i, k, j, p.blockSize);
            && o !in live
            && Coupled(WithPage(segs, i, k, Occupy(p, j)), live[o := p.blockSize])
  {
    var p := segs[i].pages[k];
    var o := BlockOffset(i, k, j, p.blockSize);
    var segs' := WithPage(segs, i, k, Occupy(p, j));
    var live' := live[o := p.blockSize];
    OccupyBlock(segs, i, k, j);
    assert LiveBlock(segs, o) == None;
    forall o'
      ensures LiveBlock(segs', o') == (if o' in live' then Some(live'[o']) else None)
    {
      if o' != o {
        assert LiveBlock(segs', o') == LiveBlock(segs, o');
      }
    }
  }

  /** Freeing used block j of page k of segment i removes exactly that block from the allocations. */
  lemma {:induction false} ReleaseView(segs: seq<Segment>, i: nat, k: nat, j: nat, live: map<nat, nat>)
    requires SegmentsValid(segs) && i < |segs| && SegmentValid(segs[i]) && k in segs[i].pages
    requires j < |segs[i].pages[k].used| && segs[i].pages[k].used[j] && Coupled(segs, live)
    ensures var p := segs[i].pages[k];
            var o := BlockOffset(i, k, j, p.blockSize);
            && o in live && live[o] == p.blockSize
            && Coupled(WithPage(segs, i, k, Release(p, j)), live - {o})
  {
    var p := segs[i].pages[k];
    var o := BlockOffset(i, k, j, p.blockSize);
    var segs' := WithPage(segs, i, k, Release(p, j));
    var live' := live - {o};
    ReleaseBlock(segs, i, k, j);
    assert LiveBlock(segs, o) == Some(p.blockSize);
    forall o'
      ensures LiveBlock(segs', o') == (if o' in live' then Some(live'[o']) else None)
    {
      if o' != o {
        assert LiveBlock(segs', o') == LiveBlock(segs, o');
      }
    }
  }
}
