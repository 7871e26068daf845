/** A page: a carve-out of a segment dedicated to one block size. It keeps the
    in-use bitmap of its blocks and the number of free blocks (`avail`). */
module Pages {
  import opened SizeClass

  /** Number of blocks in use in a bitmap. */
  function CountUsed(bits: seq<bool>): (n: nat)
    ensures n <= |bits|
  {
    if |bits| == 0 then 0
    else CountUsed(bits[..|bits| - 1]) + (if bits[|bits| - 1] then 1 else 0)
  }

  /** Flipping one bit changes the count by exactly that bit. */
  lemma {:induction false} CountUsedUpdate(bits: seq<bool>, j: nat, v: bool)
    requires j < |bits|
    ensures CountUsed(bits[j := v]) + (if bits[j] then 1 else 0) == CountUsed(bits) + (if v then 1 else 0)
    decreases |bits|
  {
    var n := |bits| - 1;
    assert bits[j := v][..n] == if j < n then bits[..n][j := v] else bits[..n];
    if j < n {
      CountUsedUpdate(bits[..n], j, v);
    }
  }

  /** A bitmap with fewer used blocks than blocks has a free block. */
  lemma {:induction false} CountUsedFree(bits: seq<bool>)
    requires CountUsed(bits) < |bits|
    ensures exists t :: 0 <= t < |bits| && !bits[t]
    decreases |bits|
  {
    var n := |bits| - 1;
    if bits[n] {
      CountUsedFree(bits[..n]);
      var t :| 0 <= t < n && !bits[..n][t];
      assert !bits[t];
    }
  }

  /** A bitmap that counts a used block has a set bit. */
  lemma {:induction false} CountUsedSet(bits: seq<bool>)
    requires CountUsed(bits) > 0
    ensures exists t :: 0 <= t < |bits| && bits[t]
    decreases |bits|
  {
    var n := |bits| - 1;
    if !bits[n] {
      CountUsedSet(bits[..n]);
      var t :| 0 <= t < n && bits[..n][t];
      assert bits[t];
    }
  }

  /** A bitmap that counts no used block has every bit clear. */
  lemma {:induction false} CountUsedZero(bits: seq<bool>, t: nat)
    requires CountUsed(bits) == 0 && t < |bits|
    ensures !bits[t]
    decreases |bits|
  {
    var n := |bits| - 1;
    if t < n {
      CountUsedZero(bits[..n], t);
      assert bits[..n][t] == bits[t];
    }
  }

  /** A bitmap with one bit set counts at least one used block. */
  lemma {:induction false} CountUsedSome(bits: seq<bool>, t: nat)
    requires t < |bits| && bits[t]
    ensures CountUsed(bits) >= 1
    decreases |bits|
  {
    var n := |bits| - 1;
    if t < n {
      CountUsedSome(bits[..n], t);
      assert bits[..n][t] == bits[t];
    }
  }

  /** An all-clear bitmap of n blocks. */
  function Clear(n: nat): (bits: seq<bool>)
    ensures |bits| == n && CountUsed(bits) == 0
    ensures forall t :: 0 <= t < n ==> !bits[t]
  {
    if n == 0 then [] else
      var bits := Clear(n - 1) + [false];
      assert bits[..n - 1] == Clear(n - 1);
      bits
  }

  datatype Page = Page(bin: nat, blockSize: nat, size: nat, used: seq<bool>, avail: nat)

  /** The free-block counter agrees with the bitmap. */
  predicate Balanced(p: Page)
  {
    p.avail + CountUsed(p.used) == |p.used|
  }

  /** The space a page of class cls takes from its segment: a fixed unit for SMALL and MEDIUM,
      the block itself for LARGE. */
  function CarveUnit(cls: PageClass, blockSize: nat): (r: nat)
    ensures cls != LargeP ==> 0 < r && kExtAlignment % r == 0
    ensures cls == LargeP ==> r == blockSize
  {
    match cls
    case SmallP => kSmallPageSize
    case MediumP => kMediumPageSize
    case LargeP => blockSize
  }

  /** A freshly carved page: all of its blocks are free. */
  function NewPage(bin: nat, blockSize: nat, size: nat): (p: Page)
    requires blockSize > 0
    ensures Balanced(p) && p.avail == |p.used| == size / blockSize
    ensures p.bin == bin && p.blockSize == blockSize && p.size == size
    ensures forall t :: 0 <= t < |p.used| ==> !p.used[t]
  {
    Page(bin, blockSize, size, Clear(size / blockSize), size / blockSize)
  }

  /** A fresh page at least one block large has a free block. */
  lemma {:induction false} NewPageHasFree(bin: nat, blockSize: nat, size: nat)
    requires 0 < blockSize <= size
    ensures NewPage(bin, blockSize, size).avail > 0
  {
    assert size / blockSize >= 1;
  }

  /** The bytes handed out from a page. */
  function PageBytes(p: Page): nat
  {
    CountUsed(p.used) * p.blockSize
  }

  /** Marks free block j as used. */
  function Occupy(p: Page, j: nat): (q: Page)
    requires Balanced(p) && j < |p.used| && !p.used[j]
    ensures |q.used| == |p.used| && Balanced(q) && q.used[j]
    ensures q.avail + 1 == p.avail && CountUsed(q.used) == CountUsed(p.used) + 1
    ensures PageBytes(q) == PageBytes(p) + p.blockSize
  {
    CountUsedUpdate(p.used, j, true);
    p.(used := p.used[j := true], avail := p.avail - 1)
  }

  /** Marks used block j as free again. */
  function Release(p: Page, j: nat): (q: Page)
    requires Balanced(p) && j < |p.used| && p.used[j]
    ensures |q.used| == |p.used| && Balanced(q) && !q.used[j]
    ensures q.avail == p.avail + 1 && CountUsed(q.used) + 1 == CountUsed(p.used)
    ensures PageBytes(q) + p.blockSize == PageBytes(p)
  {
    CountUsedUpdate(p.used, j, false);
    p.(used := p.used[j := false], avail := p.avail + 1)
  }

  /** Releasing a block just occupied gives the page back unchanged, and conversely. */
  lemma {:induction false} OccupyReleaseInverse(p: Page, j: nat)
    requires Balanced(p) && j < |p.used|
    ensures !p.used[j] ==> Release(Occupy(p, j), j) == p
    ensures p.used[j] ==> Occupy(Release(p, j), j) == p
  {
    if !p.used[j] {
      assert Release(Occupy(p, j), j).used == p.used;
    } else {
      assert Occupy(Release(p, j), j).used == p.used;
    }
  }

  /** A page with no block in use is empty: every bit is clear and it holds no bytes. */
  lemma {:induction false} EmptyPage(p: Page)
    requires Balanced(p) && p.avail == |p.used|
    ensures PageBytes(p) == 0
    ensures forall t :: 0 <= t < |p.used| ==> !p.used[t]
  {
    forall t | 0 <= t < |p.used|
      ensures !p.used[t]
    {
      CountUsedZero(p.used, t);
    }
  }

  /** try_allocate: takes the first free block of a page that has one. */
  method TryAllocate(p: Page) returns (j: nat, q: Page)
    requires Balanced(p) && p.avail > 0
    ensures j < |p.used| && !p.used[j]
    ensures forall t :: 0 <= t < j ==> p.used[t]
    ensures q == Occupy(p, j)
  {
    CountUsedFree(p.used);
    j := 0;
    while p.used[j]
      invariant j < |p.used|
      invariant forall t :: 0 <= t < j ==> p.used[t]
      invariant exists t :: j <= t < |p.used| && !p.used[t]
      decreases |p.used| - j
    {
      j := j + 1;
    }
    q := Occupy(p, j);
  }
}
