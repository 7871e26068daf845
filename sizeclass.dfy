/** Size classification of the external allocator: the 35 size bins, the three
    page classes and the rounding rule GoodSize. Everything here is a pure
    function of the requested size; no allocator state is read. */
module SizeClass {

  /** Bin 34 is the sentinel for LARGE blocks; bins 0..33 hold SMALL and MEDIUM blocks. */
  const kLargeSizeBin: nat := 34
  const kNumSizeBins: nat := kLargeSizeBin + 1

  /** Size and alignment of one segment: 256 MiB. */
  const kExtAlignment: nat := 0x1000_0000

  /** Page units: SMALL pages are 1 MiB, MEDIUM pages 8 MiB. */
  const kSmallPageSize: nat := 0x10_0000
  const kMediumPageSize: nat := 0x80_0000

  /** Inclusive upper bounds of the block sizes SMALL and MEDIUM pages host. */
  const kMaxSmallBlock: nat := 0x2_0000
  const kMaxMediumBlock: nat := 0x10_0000

  /** Tunable: the size of a LARGE block is rounded up to a multiple of this. */
  const kLargeAlignment: nat := 0x1000

  /** Smallest block handed out (the size of bin 0, 3.5 KiB). */
  const kMinBlockSize: nat := 0xE00

  datatype PageClass = SmallP | MediumP | LargeP

  /** Position of a page class in the per-class tables. */
  function ClassIndex(c: PageClass): (r: nat)
    ensures r < 3
  {
    match c
    case SmallP => 0
    case MediumP => 1
    case LargeP => 2
  }

  /** Block size of bin b: bins 0..3 are 3.5, 4, 5 and 6 KiB and every fourth bin doubles,
      so the table has four bins per doubling; bin 21 is 128 KiB and bin 33 is 1 MiB. Tunable. */
  function BinSize(b: nat): (r: nat)
    requires b < kLargeSizeBin
    ensures kMinBlockSize <= r && r % 0x200 == 0
  {
    if b == 0 then kMinBlockSize
    else if b == 1 then 0x1000
    else if b == 2 then 0x1400
    else if b == 3 then 0x1800
    else 2 * BinSize(b - 4)
  }

  /** The three anchors of the table: the smallest block, the last SMALL bin and the last MEDIUM bin. */
  lemma {:induction false} BinSizeAnchor(b: nat)
    requires b < kLargeSizeBin
    ensures b == 0 ==> BinSize(b) == kMinBlockSize
    ensures b == 21 ==> BinSize(b) == kMaxSmallBlock
    ensures b == kLargeSizeBin - 1 ==> BinSize(b) == kMaxMediumBlock
  {
    if b == 21 {
      assert BinSize(21) == 32 * BinSize(1);
    } else if b == kLargeSizeBin - 1 {
      assert BinSize(33) == 256 * BinSize(1);
    }
  }

  /** Adjacent bins grow, and by at most a quarter. */
  lemma {:induction false} BinSizeStep(b: nat)
    requires b + 1 < kLargeSizeBin
    ensures BinSize(b) < BinSize(b + 1)
    ensures 4 * BinSize(b + 1) <= 5 * BinSize(b)
    decreases b
  {
    if b >= 4 {
      BinSizeStep(b - 4);
    }
  }

  /** The table is strictly increasing. */
  lemma {:induction false} BinSizeMonotone(a: nat, b: nat)
    requires a < b < kLargeSizeBin
    ensures BinSize(a) < BinSize(b)
    decreases b - a
  {
    BinSizeStep(a);
    if a + 1 < b {
      BinSizeMonotone(a + 1, b);
    }
  }

  lemma {:induction false} BinSizePositive(b: nat)
    requires b < kLargeSizeBin
    ensures kMinBlockSize <= BinSize(b) <= kMaxMediumBlock
  {
    var lo, hi := 0, kLargeSizeBin - 1;
    BinSizeAnchor(lo);
    BinSizeAnchor(hi);
    if lo < b {
      BinSizeMonotone(lo, b);
    }
    if b < hi {
      BinSizeMonotone(b, hi);
    }
  }

  /** The least bin at or after b whose block holds sz bytes. */
  function BinFrom(sz: nat, b: nat): (r: nat)
    requires b < kLargeSizeBin && sz <= kMaxMediumBlock
    ensures b <= r < kLargeSizeBin && sz <= BinSize(r)
    ensures r == b || BinSize(r - 1) < sz
    decreases kLargeSizeBin - b
  {
    if sz <= BinSize(b) then b
    else
      BinSizeAnchor(b);
      BinFrom(sz, b + 1)
  }

  /** The size bin of a request: LARGE above 1 MiB, otherwise the least bin that holds it. */
  function BinOf(sz: nat): (r: nat)
    ensures r < kNumSizeBins
    ensures r == kLargeSizeBin <==> sz > kMaxMediumBlock
  {
    if sz > kMaxMediumBlock then kLargeSizeBin else BinFrom(sz, 0)
  }

  /** The page class of a request, by the two inclusive class boundaries. */
  function ClassOf(sz: nat): (r: PageClass)
    ensures r == SmallP <==> sz <= kMaxSmallBlock
    ensures r == LargeP <==> kMaxMediumBlock < sz
  {
    if sz <= kMaxSmallBlock then SmallP
    else if sz <= kMaxMediumBlock then MediumP
    else LargeP
  }

  /** The page class that hosts the blocks of a bin. */
  function ClassOfBin(b: nat): PageClass
  {
    if b <= 21 then SmallP
    else if b < kLargeSizeBin then MediumP
    else LargeP
  }

  /** Rounds x up to a multiple of kLargeAlignment. */
  function RoundUpLarge(x: nat): (r: nat)
    ensures x <= r < x + kLargeAlignment && r % kLargeAlignment == 0
  {
    (x + 0xFFF) / 0x1000 * 0x1000
  }

  /** The size of the block Malloc hands out for a request of sz bytes. */
  function GoodSize(sz: nat): (r: nat)
    ensures r >= sz
  {
    if sz > kMaxMediumBlock then RoundUpLarge(sz) else BinSize(BinOf(sz))
  }

  /** Every bin below the chosen one is too small: BinOf picks the tightest bin. */
  lemma {:induction false} BinOfLeast(sz: nat, b: nat)
    requires sz <= kMaxMediumBlock && b < BinOf(sz)
    ensures BinSize(b) < sz
  {
    BelowLeast(sz, b, BinFrom(sz, 0));
  }

  lemma {:induction false} BelowLeast(sz: nat, b: nat, r: nat)
    requires b < r < kLargeSizeBin && BinSize(r - 1) < sz
    ensures BinSize(b) < sz
  {
    if b < r - 1 {
      BinSizeMonotone(b, r - 1);
    }
  }

  /** A bin's own block size is classified into that bin. */
  lemma {:induction false} BinOfBinSize(b: nat)
    requires b < kLargeSizeBin
    ensures BinOf(BinSize(b)) == b
  {
    BinSizePositive(b);
    var r := BinOf(BinSize(b));
    if r < b {
      BinSizeMonotone(r, b);
    } else if r > b {
      BinOfLeast(BinSize(b), b);
    }
  }

  /** Bins 0..21 are SMALL and bins 22..33 MEDIUM: the bin of a request agrees with its page class. */
  lemma {:induction false} ClassOfBinOf(sz: nat)
    ensures ClassOfBin(BinOf(sz)) == ClassOf(sz)
  {
    var r, last := BinOf(sz), 21;
    BinSizeAnchor(last);
    if sz <= kMaxSmallBlock && r > last {
      BinOfLeast(sz, last);
    }
    if kMaxSmallBlock < sz <= kMaxMediumBlock && r < last {
      BinSizeMonotone(r, last);
    }
  }

  /** Rounding is idempotent: a good size is its own good size. */
  lemma {:induction false} GoodSizeIdempotent(sz: nat)
    ensures GoodSize(GoodSize(sz)) == GoodSize(sz)
  {
    if sz <= kMaxMediumBlock {
      BinOfBinSize(BinOf(sz));
      BinSizePositive(BinOf(sz));
    }
  }

  /** Rounding is monotone in the requested size. */
  lemma {:induction false} GoodSizeMonotone(a: nat, b: nat)
    requires a <= b
    ensures GoodSize(a) <= GoodSize(b)
  {
    if b <= kMaxMediumBlock {
      var ra, rb := BinOf(a), BinOf(b);
      if rb < ra {
        BinOfLeast(a, rb);
      }
      if ra < rb {
        BinSizeMonotone(ra, rb);
      }
    } else if a <= kMaxMediumBlock {
      BinSizePositive(BinOf(a));
    }
  }

  /** Internal fragmentation is bounded: above the smallest bin a SMALL or MEDIUM block
      wastes less than a quarter of the request, and a LARGE block less than kLargeAlignment. */
  lemma {:induction false} GoodSizeOverhead(sz: nat)
    ensures sz <= kMinBlockSize ==> GoodSize(sz) == kMinBlockSize
    ensures kMinBlockSize < sz <= kMaxMediumBlock ==> 4 * GoodSize(sz) < 5 * sz
    ensures kMaxMediumBlock < sz ==> GoodSize(sz) < sz + kLargeAlignment
    ensures kMaxMediumBlock < sz ==> GoodSize(sz) % kLargeAlignment == 0
  {
    if sz <= kMaxMediumBlock {
      var r := BinOf(sz);
      BinSizeAnchor(r);
      if r > 0 {
        BinSizeStep(r - 1);
      }
    }
  }

  /** The block of a request is hosted by the page class of the request, and its bin holds exactly that block size. */
  lemma {:induction false} GoodSizeClass(sz: nat)
    ensures ClassOf(GoodSize(sz)) == ClassOf(sz)
    ensures BinOf(GoodSize(sz)) == BinOf(sz)
  {
    if sz <= kMaxMediumBlock {
      var r := BinOf(sz);
      BinOfBinSize(r);
      BinSizePositive(r);
      ClassOfBinOf(sz);
      ClassOfBinOf(BinSize(r));
    }
  }

  /** A request of at most one segment gets a block of at most one segment. */
  lemma {:induction false} GoodSizeBounded(sz: nat)
    requires sz <= kExtAlignment
    ensures 0 < GoodSize(sz) <= kExtAlignment
  {
    if sz <= kMaxMediumBlock {
      BinSizePositive(BinOf(sz));
    } else {
      GoodSizeOverhead(sz);
      var m := GoodSize(sz) / kLargeAlignment;
      assert GoodSize(sz) == m * kLargeAlignment;
      assert m <= kExtAlignment / kLargeAlignment;
    }
  }
}
