/** The pending-storage queue: extents of backing storage that were added with
    AddStorage and not yet turned into segments, kept in increasing order of offset. */
module Extents {
  import opened SizeClass

  datatype Extent = Extent(offset: nat, size: nat)

  /** The extents tile [lo, hi) in increasing order with no gap and no overlap. */
  ghost predicate Contiguous(ext: seq<Extent>, lo: nat, hi: nat)
    decreases |ext|
  {
    if |ext| == 0 then lo == hi
    else ext[0].offset == lo && Contiguous(ext[1..], lo + ext[0].size, hi)
  }

  /** Sum of the sizes of the extents. */
  function TotalSize(ext: seq<Extent>): nat
  {
    if |ext| == 0 then 0 else ext[0].size + TotalSize(ext[1..])
  }

  /** Contiguous extents from lo end at lo plus their total size. */
  lemma {:induction false} ContiguousTotal(ext: seq<Extent>, lo: nat, hi: nat)
    requires Contiguous(ext, lo, hi)
    ensures hi == lo + TotalSize(ext)
    decreases |ext|
  {
    if |ext| > 0 {
      ContiguousTotal(ext[1..], lo + ext[0].size, hi);
    }
  }

  /** An extent that starts where the others end extends them. */
  lemma {:induction false} ContiguousAppend(ext: seq<Extent>, lo: nat, hi: nat, e: Extent)
    requires Contiguous(ext, lo, hi) && e.offset == hi
    ensures Contiguous(ext + [e], lo, hi + e.size)
    decreases |ext|
  {
    if |ext| == 0 {
      assert (ext + [e])[1..] == [];
    } else {
      ContiguousAppend(ext[1..], lo + ext[0].size, hi, e);
      assert (ext + [e])[1..] == ext[1..] + [e];
    }
  }

  /** Every pending extent starts on a segment boundary and is not empty. */
  ghost predicate Aligned(ext: seq<Extent>)
  {
    forall t :: 0 <= t < |ext| ==> ext[t].offset % kExtAlignment == 0 && ext[t].size > 0
  }

  /** The queue holds exactly the storage in [lo, hi), split at segment boundaries. */
  ghost predicate PendingValid(ext: seq<Extent>, lo: nat, hi: nat)
  {
    Contiguous(ext, lo, hi) && Aligned(ext)
  }

  /** A segment can be made from the lowest pending extent. */
  predicate CanClaim(ext: seq<Extent>)
  {
    |ext| > 0 && ext[0].size >= kExtAlignment
  }

  /** The queue after one segment is cut from the front of its lowest extent. */
  function Claim(ext: seq<Extent>): (r: seq<Extent>)
    requires CanClaim(ext)
    ensures TotalSize(r) + kExtAlignment == TotalSize(ext)
  {
    var e := ext[0];
    if e.size == kExtAlignment then ext[1..]
    else [Extent(e.offset + kExtAlignment, e.size - kExtAlignment)] + ext[1..]
  }

  /** Cutting a segment off the front of the queue moves its low end by one segment. */
  lemma {:induction false} ClaimValid(ext: seq<Extent>, lo: nat, hi: nat)
    requires PendingValid(ext, lo, hi) && CanClaim(ext)
    ensures PendingValid(Claim(ext), lo + kExtAlignment, hi)
  {
    var r := Claim(ext);
    if ext[0].size != kExtAlignment {
      assert r[1..] == ext[1..];
      forall t | 0 <= t < |r|
        ensures r[t].offset % kExtAlignment == 0 && r[t].size > 0
      {
        if t > 0 {
          assert r[t] == ext[t];
        }
      }
    } else {
      forall t | 0 <= t < |r|
        ensures r[t].offset % kExtAlignment == 0 && r[t].size > 0
      {
        assert r[t] == ext[t + 1];
      }
    }
  }

  /** Adding an aligned extent at the end keeps the queue valid. */
  lemma {:induction false} AddValid(ext: seq<Extent>, lo: nat, hi: nat, size: nat)
    requires PendingValid(ext, lo, hi) && hi % kExtAlignment == 0 && size > 0
    ensures PendingValid(ext + [Extent(hi, size)], lo, hi + size)
  {
    ContiguousAppend(ext, lo, hi, Extent(hi, size));
    var r := ext + [Extent(hi, size)];
    forall t | 0 <= t < |r|
      ensures r[t].offset % kExtAlignment == 0 && r[t].size > 0
    {
      if t < |ext| {
        assert r[t] == ext[t];
      }
    }
  }

  /** Progress: once a whole segment of storage is added at an aligned end, a segment can be claimed. */
  lemma {:induction false} AddProgress(ext: seq<Extent>, lo: nat, hi: nat, size: nat)
    requires PendingValid(ext, lo, hi) && lo % kExtAlignment == 0 && hi % kExtAlignment == 0
    requires size >= kExtAlignment
    ensures CanClaim(ext + [Extent(hi, size)])
  {
    if |ext| > 0 {
      var next := lo + ext[0].size;
      assert Contiguous(ext[1..], next, hi);
      if |ext| == 1 {
        assert next == hi;
      } else {
        assert ext[1].offset == next;
      }
      assert next % kExtAlignment == 0;
    }
  }
}
