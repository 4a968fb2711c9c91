/** Index entries, shared by every format. */
module Blocks {
  import opened Bits

  const U32: nat := 0x1_0000_0000
  const U64: nat := 0x1_0000_0000_0000_0000

  /** A run of `usize` bytes of the uncompressed file, at `uoff`, stored in
      `csize` bytes at `coff`. */
  datatype Block = Block(usize: nat, csize: nat, uoff: nat, coff: nat)

  /** What each format keeps about a block: bzip2 also the bits to take before
      the first byte and to leave off before the last, and the level of its
      stream; gzip the bits before the first byte and the window, if any. */
  datatype Record =
    | PlainBlock(block: Block)
    | Bzip2Block(block: Block, bits: nat, endbits: nat, level: byte)
    | GzipBlock(block: Block, bits: nat, dict: seq<byte>)

  type Bzip2Record = r: Record | r.Bzip2Block? witness Bzip2Block(Block(0, 0, 0, 0), 0, 0, 0)
  type GzipRecord = r: Record | r.GzipBlock? witness GzipBlock(Block(0, 0, 0, 0), 0, [])

  function Plain(rs: seq<Record>): (bs: seq<Block>)
    ensures |bs| == |rs| && forall k | 0 <= k < |rs| :: bs[k] == rs[k].block
  {
    if rs == [] then [] else [rs[0].block] + Plain(rs[1..])
  }

  /** Each block begins where the one before it ends, the first at `from`. */
  ghost predicate Tiled(bs: seq<Block>, from: nat) {
    && (bs != [] ==> bs[0].uoff == from)
    && (forall k: nat | 0 < k < |bs| :: bs[k].uoff == bs[k - 1].uoff + bs[k - 1].usize)
  }

  /** The uncompressed size of a file with these blocks. */
  function UncompressedSize(bs: seq<Block>): nat {
    if bs == [] then 0 else bs[|bs| - 1].uoff + bs[|bs| - 1].usize
  }

  /** The blocks from `from` on cover `total` bytes. */
  ghost predicate Covers(bs: seq<Block>, from: nat, total: nat) {
    Tiled(bs, from) && if bs == [] then total == 0 else UncompressedSize(bs) == from + total
  }

  lemma CoversCons(b: Block, rest: seq<Block>, from: nat, total: nat)
    requires b.uoff == from && Covers(rest, from + b.usize, total)
    ensures Covers([b] + rest, from, b.usize + total)
  {
    var all := [b] + rest;
    forall k: nat | 0 < k < |all|
      ensures all[k].uoff == all[k - 1].uoff + all[k - 1].usize
    {
      if 1 < k {
        assert rest[k - 1].uoff == rest[k - 2].uoff + rest[k - 2].usize;
      }
    }
  }

  lemma CoversRest(b: Block, rest: seq<Block>, from: nat, total: nat)
    requires Covers([b] + rest, from, b.usize + total)
    ensures b.uoff == from && Covers(rest, from + b.usize, total)
  {
    var all := [b] + rest;
    TiledRest(all, from);
    assert all[1..] == rest;
  }

  lemma {:induction false} TiledAfter(bs: seq<Block>, from: nat, i: nat)
    requires Tiled(bs, from) && i < |bs|
    ensures from <= bs[i].uoff
    decreases i
  {
    if 0 < i {
      TiledAfter(bs, from, i - 1);
    }
  }

  lemma CoversAppend(a: seq<Block>, b: seq<Block>, from: nat, m: nat, n: nat)
    requires Covers(a, from, m) && Covers(b, from + m, n)
    ensures Covers(a + b, from, m + n)
  {
    var all := a + b;
    forall k: nat | 0 < k < |all|
      ensures all[k].uoff == all[k - 1].uoff + all[k - 1].usize
    {
      if |a| < k {
        assert b[k - |a|].uoff == b[k - |a| - 1].uoff + b[k - |a| - 1].usize;
      }
    }
  }

  lemma TiledCons(bs: seq<Block>, from: nat)
    requires bs != []
    ensures Tiled(bs, from) <==> bs[0].uoff == from && Tiled(bs[1..], from + bs[0].usize)
  {
    var rest := bs[1..];
    if Tiled(bs, from) {
      TiledRest(bs, from);
    }
    if bs[0].uoff == from && Tiled(rest, from + bs[0].usize) {
      forall k: nat | 0 < k < |bs|
        ensures bs[k].uoff == bs[k - 1].uoff + bs[k - 1].usize
      {
        if 1 < k {
          assert rest[k - 1].uoff == rest[k - 2].uoff + rest[k - 2].usize;
        }
      }
    }
  }

  lemma TiledRest(bs: seq<Block>, from: nat)
    requires bs != [] && Tiled(bs, from)
    ensures bs[0].uoff == from && Tiled(bs[1..], from + bs[0].usize)
  {
    var rest := bs[1..];
    forall k: nat | 0 < k < |rest|
      ensures rest[k].uoff == rest[k - 1].uoff + rest[k - 1].usize
    {
      assert bs[k + 1].uoff == bs[k].uoff + bs[k].usize;
    }
    if rest != [] {
      assert bs[1].uoff == bs[0].uoff + bs[0].usize;
    }
  }
}
