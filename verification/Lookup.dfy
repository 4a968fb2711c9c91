/** Finding the block at an offset (`BlockListCompFile::findBlock`). */
module Lookup {
  import opened Blocks
  import opened Wrappers

  /** Whether block `b` ends before offset `off`, in 64-bit unsigned arithmetic. */
  predicate EndsBefore(b: Block, off: nat) {
    (b.uoff + b.usize - 1) % U64 < off
  }

  /** The binary search over blocks `first` to `first + len`. */
  function Search(bs: seq<Block>, off: nat, first: nat, len: nat): (i: nat)
    requires first + len <= |bs|
    ensures first <= i <= first + len
    decreases len
  {
    if len == 0 then first
    else
      var half := len / 2;
      if EndsBefore(bs[first + half], off) then Search(bs, off, first + half + 1, len - half - 1)
      else Search(bs, off, first, half)
  }

  /** `std::lower_bound`, or nothing when it runs off the end. */
  method FindBlock(bs: seq<Block>, off: nat) returns (r: Option<nat>)
    ensures r == if Search(bs, off, 0, |bs|) < |bs| then Some(Search(bs, off, 0, |bs|)) else None
  {
    var first, len := 0, |bs|;
    while 0 < len
      invariant 0 <= first <= first + len <= |bs|
      invariant Search(bs, off, first, len) == Search(bs, off, 0, |bs|)
      decreases len
    {
      var half := len / 2;
      if EndsBefore(bs[first + half], off) {
        first, len := first + half + 1, len - half - 1;
      } else {
        len := half;
      }
    }
    r := if first < |bs| then Some(first) else None;
  }

  lemma {:induction false} TiledOrder(bs: seq<Block>, from: nat, j: nat, k: nat)
    requires Tiled(bs, from) && j < k < |bs|
    ensures bs[j].uoff + bs[j].usize <= bs[k].uoff
    decreases k
  {
    if j < k - 1 {
      TiledOrder(bs, from, j, k - 1);
    }
  }

  /** Blocks that end before `off` come first. */
  ghost predicate Parted(bs: seq<Block>, off: nat) {
    forall j, k | 0 <= j < k < |bs| :: EndsBefore(bs[k], off) ==> EndsBefore(bs[j], off)
  }

  lemma {:induction false} SearchParted(bs: seq<Block>, off: nat, first: nat, len: nat)
    requires first + len <= |bs| && Parted(bs, off)
    ensures var i := Search(bs, off, first, len);
            && (forall k | first <= k < i :: EndsBefore(bs[k], off))
            && (i < first + len ==> !EndsBefore(bs[i], off))
    decreases len
  {
    hide EndsBefore;
    if len != 0 {
      var half := len / 2;
      if EndsBefore(bs[first + half], off) {
        SearchParted(bs, off, first + half + 1, len - half - 1);
      } else {
        SearchParted(bs, off, first, half);
      }
    }
  }

  ghost predicate Contains(b: Block, off: nat) {
    b.uoff <= off < b.uoff + b.usize
  }

  lemma TiledParted(bs: seq<Block>, off: nat)
    requires Tiled(bs, 0) && UncompressedSize(bs) < U64 && bs != [] && bs[0].usize != 0
    ensures Parted(bs, off)
    ensures forall k | 0 <= k < |bs| :: EndsBefore(bs[k], off) <==> bs[k].uoff + bs[k].usize <= off
  {
    var n := |bs| - 1;
    forall k | 0 <= k < |bs|
      ensures 0 < bs[k].uoff + bs[k].usize <= U64
    {
      if 0 < k {
        TiledOrder(bs, 0, 0, k);
      }
      if k < n {
        TiledOrder(bs, 0, k, n);
      }
    }
    forall j, k | 0 <= j < k < |bs|
      ensures EndsBefore(bs[k], off) ==> EndsBefore(bs[j], off)
    {
      TiledOrder(bs, 0, j, k);
    }
  }

  /** On a tiled list that does not begin with an empty block, the search finds
      the only block holding the offset, and fails exactly past the end. */
  lemma LookupExact(bs: seq<Block>, off: nat)
    requires Tiled(bs, 0) && UncompressedSize(bs) < U64 && (bs != [] ==> bs[0].usize != 0)
    ensures var i := Search(bs, off, 0, |bs|);
            && (i < |bs| <==> off < UncompressedSize(bs))
            && (i < |bs| ==> Contains(bs[i], off) && forall k | 0 <= k < |bs| && Contains(bs[k], off) :: k == i)
  {
    if bs != [] {
      var i, n := Search(bs, off, 0, |bs|), |bs| - 1;
      TiledParted(bs, off);
      SearchParted(bs, off, 0, |bs|);
      if i < |bs| {
        assert 0 < i ==> EndsBefore(bs[i - 1], off) && bs[i].uoff == bs[i - 1].uoff + bs[i - 1].usize;
        if i < n {
          TiledOrder(bs, 0, i, n);
        }
        forall k | 0 <= k < |bs| && Contains(bs[k], off)
          ensures k == i
        {
          if i < k {
            TiledOrder(bs, 0, i, k);
          }
        }
      }
    }
  }

  /** Every offset inside the file is found, and found in a block that holds it. */
  ghost predicate AllFound(bs: seq<Block>) {
    forall off: nat | off < UncompressedSize(bs) ::
      var i := Search(bs, off, 0, |bs|); i < |bs| && Contains(bs[i], off)
  }

  /** An empty first block, whose last byte wraps around to the largest offset,
      hides the start of the file; nothing else does. */
  lemma LookupWorks(bs: seq<Block>)
    requires Tiled(bs, 0) && UncompressedSize(bs) < U64
    ensures AllFound(bs) <==> bs == [] || bs[0].usize != 0 || UncompressedSize(bs) == 0
  {
    if bs == [] || bs[0].usize != 0 {
      forall off: nat | off < UncompressedSize(bs)
        ensures var i := Search(bs, off, 0, |bs|); i < |bs| && Contains(bs[i], off)
      {
        LookupExact(bs, off);
      }
    } else if UncompressedSize(bs) != 0 {
      NothingBefore(bs, 0, |bs|);
      assert !Contains(bs[Search(bs, 0, 0, |bs|)], 0);
    }
  }

  lemma {:induction false} NothingBefore(bs: seq<Block>, first: nat, len: nat)
    requires first + len <= |bs|
    ensures Search(bs, 0, first, len) == first
    decreases len
  {
    if len != 0 {
      NothingBefore(bs, first, len / 2);
    }
  }
}
