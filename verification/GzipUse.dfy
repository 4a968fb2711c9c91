/** What a finished gzip index is good for: reading blocks, and being saved. */
module GzipUse {
  import opened Bits
  import opened Blocks
  import opened BlockIndex
  import opened Deflate
  import opened GzipFile
  import opened GzipLayout
  import opened GzipReader
  import opened GzipSpec
  import opened Wrappers

  /** `GzipFile::decompressBlock`: a raw stream placed by the block's offset
      and bits, primed with its window, read until the block is full. */
  function DecompressBlock(f: GzFile, b: GzipRecord): Option<seq<byte>>
    requires |f.items| < |f.ends|
  {
    var k := FindBoundary(f, 8 * b.block.coff - b.bits);
    if |f.items| < k then None else ReadFrom(f, k, b.dict, b.block.usize)
  }

  /** The index that `BuildIndex` makes of file `f`. */
  ghost predicate IsIndex(f: GzFile, bytes: seq<byte>, minBlock: nat, bs: seq<GzipRecord>) {
    && IsFile(f, bytes) && Decodes(f) && WINDOW <= minBlock
    && Sized(bs, Entries(f, minBlock, 1, 0), |Out(f, |f.items|)|, |bytes|)
  }

  /** How far it is from entry `i` to the next, or to the end of the output. */
  ghost function Distance(f: GzFile, es: seq<Entry>, i: nat): int
    requires i < |es|
  {
    NextUoff(f, es[i + 1..]) - es[i].uoff
  }

  /** The distance from each entry to the next fits 32 bits. */
  ghost predicate EntriesFit(f: GzFile, minBlock: nat)
    requires 1 <= |f.items| < |f.ends|
  {
    var es := Entries(f, minBlock, 1, 0);
    forall i: nat | i < |es| :: Distance(f, es, i) < U32
  }

  /** It does when no DEFLATE block puts out too much. */
  lemma SmallBlocksFit(f: GzFile, minBlock: nat, most: nat)
    requires WellFormed(f) && Decodes(f) && minBlock + most < U32
    requires forall j: nat | j < |f.items| :: |ItemOut(f, j)| <= most
    ensures EntriesFit(f, minBlock)
  {
    hide Decode, Out, ItemOut, Entries;
    var es := Entries(f, minBlock, 1, 0);
    forall i: nat | i < |es|
      ensures Distance(f, es, i) < U32
    {
      SizesBounded(f, minBlock, 1, 0, most, i);
    }
  }

  lemma EntryOf(f: GzFile, bytes: seq<byte>, minBlock: nat, bs: seq<GzipRecord>, i: nat)
    requires IsIndex(f, bytes, minBlock, bs) && i < |bs|
    ensures |bs| == |Entries(f, minBlock, 1, 0)|
    ensures var es := Entries(f, minBlock, 1, 0);
            var e, next := es[i], NextUoff(f, es[i + 1..]);
            && e.at < |f.items| < |f.ends| && e == EntryAt(f, e.at, e.dict) && Reads(f, es, i)
            && bs[i].block.uoff == e.uoff <= next && bs[i].block.usize == (next - e.uoff) % U32
            && bs[i].block.coff == e.coff && bs[i].bits == e.bits && bs[i].dict == e.dict && bs[i].block.csize < U32
            && (i + 1 < |bs| ==> next == bs[i + 1].block.uoff) && (i + 1 == |bs| ==> next == |Out(f, |f.items|)|)
  {
    hide Decode, Out, ItemOut, Entries, ReadFrom, EntryAt;
    var es := Entries(f, minBlock, 1, 0);
    EntriesSound(f, minBlock, 1, 0, i);
    EntryIsLater(f, minBlock, 1, 0, i);
    assert bs[i] == SizedBlock(es, i, |Out(f, |f.items|)|, |bytes|);
    if i + 1 < |es| {
      assert es[i + 1..][0] == es[i + 1];
      assert bs[i + 1] == SizedBlock(es, i + 1, |Out(f, |f.items|)|, |bytes|);
    } else {
      assert es[i + 1..] == [];
    }
  }

  /** Reading less gives less of the same. */
  lemma {:induction false} ReadLess(f: GzFile, k: nat, hist: seq<byte>, n: nat, m: nat)
    requires k <= |f.items| && m <= n && ReadFrom(f, k, hist, n).Some?
    ensures |ReadFrom(f, k, hist, n).value| == n && ReadFrom(f, k, hist, m) == Some(ReadFrom(f, k, hist, n).value[..m])
    decreases |f.items| - k
  {
    hide Decode;
    if n != 0 {
      var d := Decode(hist, f.items[k].toks);
      if n <= |d.out| {
        assert d.out[..n][..m] == d.out[..m];
      } else {
        var got := if m <= |d.out| then 0 else m - |d.out|;
        ReadLess(f, k + 1, hist + d.out, n - |d.out|, got);
        var rest := ReadFrom(f, k + 1, hist + d.out, n - |d.out|).value;
        if m <= |d.out| {
          assert (d.out + rest)[..m] == d.out[..m];
        } else {
          assert (d.out + rest)[..m] == d.out + rest[..got];
        }
      }
    }
  }

  /** In the file, each block ends where the next one starts, and the last at
      the end, as far as its compressed size fits. */
  lemma StoredEndToEnd(f: GzFile, bytes: seq<byte>, minBlock: nat, bs: seq<GzipRecord>, i: nat)
    requires IsIndex(f, bytes, minBlock, bs) && i < |bs|
    ensures var end := if i + 1 < |bs| then bs[i + 1].block.coff else |bytes|;
            && bs[i].block.coff < end
            && bs[i].block.csize == (end - bs[i].block.coff) % U32
  {
    hide Decode, Out, Entries, EntryAt;
    var es := Entries(f, minBlock, 1, 0);
    assert bs[i] == SizedBlock(es, i, |Out(f, |f.items|)|, |bytes|);
    if i + 1 < |bs| {
      OffsetsIncrease(f, bytes, minBlock, bs, i, i + 1);
      assert bs[i + 1] == SizedBlock(es, i + 1, |Out(f, |f.items|)|, |bytes|);
    } else {
      EntryInFile(f, bytes, minBlock, bs, i);
    }
  }

  lemma EntryInFile(f: GzFile, bytes: seq<byte>, minBlock: nat, bs: seq<GzipRecord>, i: nat)
    requires IsIndex(f, bytes, minBlock, bs) && i < |bs|
    ensures bs[i].block.coff < |bytes|
  {
    hide Decode, Out, Entries, Sized, Reads;
    EntryOf(f, bytes, minBlock, bs, i);
    BytesIncrease(f, Entries(f, minBlock, 1, 0)[i].at, |f.items|);
  }

  /** Every block of the index decompresses to exactly the bytes it stands for,
      even one whose size has been cut off. */
  lemma BlocksRead(f: GzFile, bytes: seq<byte>, minBlock: nat, bs: seq<GzipRecord>, i: nat)
    requires IsIndex(f, bytes, minBlock, bs) && i < |bs|
    ensures var b, out := bs[i].block, Out(f, |f.items|);
            b.uoff + b.usize <= |out| && DecompressBlock(f, bs[i]) == Some(out[b.uoff..b.uoff + b.usize])
  {
    hide Decode, Out, ItemOut, Entries, ReadFrom, Sized;
    EntryOf(f, bytes, minBlock, bs, i);
    var es := Entries(f, minBlock, 1, 0);
    var e, next := es[i], NextUoff(f, es[i + 1..]);
    BoundaryFound(f, e.at, 0);
    CutOff(next - e.uoff);
    ReadLess(f, e.at, e.dict, next - e.uoff, bs[i].block.usize);
    Prefix(Out(f, |f.items|), e.uoff, next, bs[i].block.usize);
  }

  lemma CutOff(n: nat)
    ensures n % U32 <= n && n % U32 < U32
  {
  }

  lemma Prefix(s: seq<byte>, a: nat, b: nat, n: nat)
    requires a <= a + n <= b <= |s|
    ensures s[a..b][..n] == s[a..a + n]
  {
  }

  /** Each block runs to the next one, or to the end of the output, exactly when
      its size has not been cut off. */
  lemma RunsToNext(f: GzFile, bytes: seq<byte>, minBlock: nat, bs: seq<GzipRecord>, i: nat)
    requires IsIndex(f, bytes, minBlock, bs) && i < |bs|
    ensures |bs| == |Entries(f, minBlock, 1, 0)|
    ensures var es := Entries(f, minBlock, 1, 0);
            (Distance(f, es, i) < U32 <==>
             Meets(bs, i, |Out(f, |f.items|)|))
    ensures i == 0 ==> bs[i].block.uoff == 0
  {
    hide Decode, Out, ItemOut, ReadFrom, EntryAt, Reads, Sized, Entries;
    EntryOf(f, bytes, minBlock, bs, i);
    FirstAtZero(f, minBlock);
  }

  /** The blocks cover the whole output, end to end, exactly when no size has been cut off. */
  lemma BlocksCover(f: GzFile, bytes: seq<byte>, minBlock: nat, bs: seq<GzipRecord>)
    requires IsIndex(f, bytes, minBlock, bs)
    ensures 1 <= |f.items| < |f.ends| && (Covers(Plain(bs), 0, |Out(f, |f.items|)|) <==> EntriesFit(f, minBlock))
  {
    hide IsIndex, Out, Covers, Entries, NextUoff;
    HasItems(f, bytes, minBlock, bs);
    var es, total := Entries(f, minBlock, 1, 0), |Out(f, |f.items|)|;
    forall i: nat | i < |bs|
      ensures Distance(f, es, i) < U32 <==> Meets(bs, i, total)
    {
      RunsToNext(f, bytes, minBlock, bs, i);
    }
    if bs != [] {
      RunsToNext(f, bytes, minBlock, bs, 0);
    }
    PlainCovers(bs, total);
  }

  /** Block `i` ends where the next one starts, or at the end of the output. */
  ghost predicate Meets(bs: seq<GzipRecord>, i: nat, total: nat)
    requires i < |bs|
  {
    bs[i].block.uoff + bs[i].block.usize == if i + 1 < |bs| then bs[i + 1].block.uoff else total
  }

  lemma {:induction false} PlainCovers(bs: seq<GzipRecord>, total: nat)
    requires if bs == [] then total == 0 else bs[0].block.uoff == 0
    ensures Covers(Plain(bs), 0, total) <==> forall i: nat | i < |bs| :: Meets(bs, i, total)
  {
    hide Meets;
    if Covers(Plain(bs), 0, total) {
      forall i: nat | i < |bs|
        ensures Meets(bs, i, total)
      {
        CoversMeets(bs, total, i);
      }
    }
    if forall i: nat | i < |bs| :: Meets(bs, i, total) {
      MeetsCovers(bs, total);
    }
  }

  lemma {:induction false} CoversMeets(bs: seq<GzipRecord>, total: nat, i: nat)
    requires Covers(Plain(bs), 0, total) && i < |bs|
    ensures Meets(bs, i, total)
  {
    hide Plain;
    var ps, k := Plain(bs), i + 1;
    if k < |ps| {
      assert ps[k].uoff == ps[k - 1].uoff + ps[k - 1].usize;
    }
  }

  lemma {:induction false} MeetsCovers(bs: seq<GzipRecord>, total: nat)
    requires if bs == [] then total == 0 else bs[0].block.uoff == 0
    requires forall i: nat | i < |bs| :: Meets(bs, i, total)
    ensures Covers(Plain(bs), 0, total)
  {
    hide Plain;
    var ps := Plain(bs);
    forall k: nat | 0 < k < |ps|
      ensures ps[k].uoff == ps[k - 1].uoff + ps[k - 1].usize
    {
      var i: nat := k - 1;
      assert Meets(bs, i, total);
    }
    if bs != [] {
      var n: nat := |bs| - 1;
      assert Meets(bs, n, total);
    }
  }

  lemma HasItems(f: GzFile, bytes: seq<byte>, minBlock: nat, bs: seq<GzipRecord>)
    requires IsIndex(f, bytes, minBlock, bs)
    ensures 1 <= |f.items| < |f.ends| && |bs| == |Entries(f, minBlock, 1, 0)| && (bs == [] ==> Out(f, |f.items|) == [])
  {
    hide Decode, Out, Entries;
    SizedLength(bs, Entries(f, minBlock, 1, 0), |Out(f, |f.items|)|, |bytes|);
    FirstAtZero(f, minBlock);
  }

  lemma FirstAtZero(f: GzFile, minBlock: nat)
    requires WellFormed(f) && Decodes(f)
    ensures NextUoff(f, Entries(f, minBlock, 1, 0)) == 0
  {
    hide Decode;
    NoOut(f, 0);
    QuietBetween(f, minBlock, 1, 0);
    assert Out(f, 1) == [];
  }

  /** No two blocks share a compressed offset. */
  lemma OffsetsIncrease(f: GzFile, bytes: seq<byte>, minBlock: nat, bs: seq<GzipRecord>, i: nat, j: nat)
    requires IsIndex(f, bytes, minBlock, bs) && i < j < |bs|
    ensures bs[i].block.coff < bs[j].block.coff
  {
    hide Decode, Out, Entries, EntryAt;
    var es := Entries(f, minBlock, 1, 0);
    OffsetsDistinct(f, minBlock, 1, 0, i, j);
    assert bs[i] == SizedBlock(es, i, |Out(f, |f.items|)|, |bytes|);
    assert bs[j] == SizedBlock(es, j, |Out(f, |f.items|)|, |bytes|);
  }

  /** A block is empty exactly when it was made at a member's trailer, which
      happens when the member ends too far past the entry before. */
  lemma EmptyBlocks(f: GzFile, bytes: seq<byte>, minBlock: nat, bs: seq<GzipRecord>, i: nat)
    requires IsIndex(f, bytes, minBlock, bs) && EntriesFit(f, minBlock) && i < |bs|
    ensures var es := Entries(f, minBlock, 1, 0);
            |bs| == |es| && es[i].at < |f.items| && (bs[i].block.usize == 0 <==> f.items[es[i].at].Trailer?)
  {
    hide Decode, Out, ItemOut, Entries, Sized;
    EntryOf(f, bytes, minBlock, bs, i);
    assert Distance(f, Entries(f, minBlock, 1, 0), i) < U32;
    assert f.items[0].Header? && MayFollow(f.items[0], f.items[1]);
    EmptyAtTrailer(f, minBlock, 1, 0, i);
  }

  /** A window kept is a full window. */
  lemma {:induction false} FullWindows(f: GzFile, minBlock: nat, k: nat, last: nat, i: nat)
    requires k <= |f.items| < |f.ends| && WINDOW <= minBlock && i < |Entries(f, minBlock, k, last)|
    ensures var dict := Entries(f, minBlock, k, last)[i].dict; dict == [] || |dict| == WINDOW
    decreases |f.items| - k
  {
    hide Judge, Out;
    match Pick(f, minBlock, k, last)
    case None =>
      FullWindows(f, minBlock, k + 1, last, i);
    case Some(e) =>
      if 0 < i {
        FullWindows(f, minBlock, k + 1, e.uoff, i - 1);
      }
  }

  /** The index file can hold every block. */
  lemma AllStorable(f: GzFile, bytes: seq<byte>, minBlock: nat, bs: seq<GzipRecord>)
    requires IsIndex(f, bytes, minBlock, bs) && |bytes| < U64
    ensures forall b | b in bs :: Storable(b)
  {
    hide Decode, Out, Entries, Reads;
    forall b | b in bs
      ensures Storable(b)
    {
      var i: nat :| i < |bs| && bs[i] == b;
      EntryOf(f, bytes, minBlock, bs, i);
      FullWindows(f, minBlock, 1, 0, i);
      BytesIncrease(f, Entries(f, minBlock, 1, 0)[i].at, |f.items|);
    }
  }

  /** The index survives being saved and loaded exactly when no distance from
      an entry to the next is cut off, and none, nor that to the end of the
      output, is cut off to zero: if they all fit 32 bits, exactly when no entry
      was made at a trailer. */
  lemma SavedIndex(f: GzFile, bytes: seq<byte>, minBlock: nat, bs: seq<GzipRecord>)
    requires IsIndex(f, bytes, minBlock, bs) && |bytes| < U64
    ensures var es := Entries(f, minBlock, 1, 0);
            (forall e | e in es :: e.at < |f.items|) &&
            (ParseAll(GzipKind, WriteAll(bs), 0) == Some(bs) <==>
               && (forall i: nat | i + 1 < |es| :: Distance(f, es, i) < U32)
               && (forall i: nat | i < |es| :: Distance(f, es, i) % U32 != 0)) &&
            (EntriesFit(f, minBlock) ==>
               (ParseAll(GzipKind, WriteAll(bs), 0) == Some(bs) <==> forall e | e in es :: !f.items[e.at].Trailer?))
  {
    hide Decode, Out, ItemOut, Entries, Sized, EntriesFit, Storable, WriteAll, ParseAll, Distance, Tiled;
    var es := Entries(f, minBlock, 1, 0);
    AllStorable(f, bytes, minBlock, bs);
    RoundTrip(GzipKind, bs);
    StoredSizes(f, bytes, minBlock, bs);
    if EntriesFit(f, minBlock) {
      BlocksCover(f, bytes, minBlock, bs);
      SavedFitting(f, bytes, minBlock, bs);
    }
  }

  /** What makes the stored blocks lie end to end, and none of them empty. */
  lemma StoredSizes(f: GzFile, bytes: seq<byte>, minBlock: nat, bs: seq<GzipRecord>)
    requires IsIndex(f, bytes, minBlock, bs)
    ensures var es := Entries(f, minBlock, 1, 0);
            && (forall e | e in es :: e.at < |f.items| < |f.ends|)
            && (Tiled(Plain(bs), 0) <==> forall i: nat | i + 1 < |es| :: Distance(f, es, i) < U32)
            && (NoneEmpty(bs) <==> forall i: nat | i < |es| :: Distance(f, es, i) % U32 != 0)
  {
    hide IsIndex, Out, Entries, NextUoff, Meets, Tiled, NoneEmpty, Plain, Distance;
    HasItems(f, bytes, minBlock, bs);
    var es, total := Entries(f, minBlock, 1, 0), |Out(f, |f.items|)|;
    forall e | e in es
      ensures e.at < |f.items|
    {
      var i: nat :| i < |es| && es[i] == e;
      OneStored(f, bytes, minBlock, bs, i);
    }
    forall i: nat | i + 1 < |es|
      ensures Distance(f, es, i) < U32 <==> Meets(bs, i, total)
    {
      OneStored(f, bytes, minBlock, bs, i);
    }
    if bs != [] {
      OneStored(f, bytes, minBlock, bs, 0);
    }
    PlainTiled(bs, total);
    SomeEmpty(bs);
    forall i: nat | i < |es|
      ensures bs[i].block.usize == Distance(f, es, i) % U32
    {
      OneStored(f, bytes, minBlock, bs, i);
    }
  }

  lemma OneStored(f: GzFile, bytes: seq<byte>, minBlock: nat, bs: seq<GzipRecord>, i: nat)
    requires IsIndex(f, bytes, minBlock, bs) && i < |bs|
    ensures |bs| == |Entries(f, minBlock, 1, 0)| && 1 <= |f.items| < |f.ends|
    ensures var es := Entries(f, minBlock, 1, 0);
            && es[i].at < |f.items| && bs[i].block.usize == Distance(f, es, i) % U32 && (i == 0 ==> bs[i].block.uoff == 0)
            && (Distance(f, es, i) < U32 <==> Meets(bs, i, |Out(f, |f.items|)|))
  {
    hide Decode, Out, ItemOut, Entries, Sized, NextUoff, Meets;
    RunsToNext(f, bytes, minBlock, bs, i);
    EntryOf(f, bytes, minBlock, bs, i);
  }

  lemma SomeEmpty(bs: seq<GzipRecord>)
    ensures NoneEmpty(bs) <==> forall i: nat | i < |bs| :: bs[i].block.usize != 0
  {
    if NoneEmpty(bs) {
      forall i: nat | i < |bs|
        ensures bs[i].block.usize != 0
      {
        assert bs[i] in bs;
      }
    }
  }

  lemma {:induction false} PlainTiled(bs: seq<GzipRecord>, total: nat)
    requires bs != [] ==> bs[0].block.uoff == 0
    ensures Tiled(Plain(bs), 0) <==> forall i: nat | i + 1 < |bs| :: Meets(bs, i, total)
  {
    hide Plain;
    var ps := Plain(bs);
    if Tiled(ps, 0) {
      forall i: nat | i + 1 < |bs|
        ensures Meets(bs, i, total)
      {
        var k: nat := i + 1;
        assert ps[k].uoff == ps[k - 1].uoff + ps[k - 1].usize;
      }
    }
    if forall i: nat | i + 1 < |bs| :: Meets(bs, i, total) {
      forall k: nat | 0 < k < |ps|
        ensures ps[k].uoff == ps[k - 1].uoff + ps[k - 1].usize
      {
        var i: nat := k - 1;
        assert Meets(bs, i, total);
      }
    }
  }

  lemma SavedFitting(f: GzFile, bytes: seq<byte>, minBlock: nat, bs: seq<GzipRecord>)
    requires IsIndex(f, bytes, minBlock, bs) && EntriesFit(f, minBlock)
    ensures var es := Entries(f, minBlock, 1, 0);
            (forall e | e in es :: e.at < |f.items|) && (NoneEmpty(bs) <==> forall e | e in es :: !f.items[e.at].Trailer?)
  {
    hide Decode, Out, ItemOut, Entries, Sized, EntriesFit;
    var es := Entries(f, minBlock, 1, 0);
    EntriesMatch(f, bytes, minBlock, bs);
    SomeEmpty(bs);
    if NoneEmpty(bs) {
      forall e | e in es
        ensures !f.items[e.at].Trailer?
      {
        var i: nat :| i < |es| && es[i] == e;
        assert bs[i].block.usize != 0;
      }
    } else {
      var i: nat :| i < |bs| && bs[i].block.usize == 0;
      assert es[i] in es;
    }
  }

  lemma EntriesMatch(f: GzFile, bytes: seq<byte>, minBlock: nat, bs: seq<GzipRecord>)
    requires IsIndex(f, bytes, minBlock, bs) && EntriesFit(f, minBlock)
    ensures var es := Entries(f, minBlock, 1, 0);
            |bs| == |es| && forall i: nat | i < |es| :: es[i].at < |f.items| && (bs[i].block.usize == 0 <==> f.items[es[i].at].Trailer?)
  {
    hide Decode, Out, ItemOut, Entries, Sized, EntriesFit;
    var es := Entries(f, minBlock, 1, 0);
    assert |bs| == |es| by {
      assert Sized(bs, es, |Out(f, |f.items|)|, |bytes|);
      SizedLength(bs, es, |Out(f, |f.items|)|, |bytes|);
    }
    forall i: nat | i < |es|
      ensures es[i].at < |f.items| && (bs[i].block.usize == 0 <==> f.items[es[i].at].Trailer?)
    {
      EmptyBlocks(f, bytes, minBlock, bs, i);
    }
  }

  lemma SizedLength(bs: seq<GzipRecord>, es: seq<Entry>, u: nat, c: nat)
    requires Sized(bs, es, u, c)
    ensures |bs| == |es|
  {
  }

  /** A file of two members, the first a single block longer than the minimum
      block size: loaded from a saved index, it ends where its first member does. */
  lemma SecondMemberLost(f: GzFile, bytes: seq<byte>, minBlock: nat, bs: seq<GzipRecord>, toks: seq<Token>, b: byte)
    requires IsIndex(f, bytes, minBlock, bs) && EntriesFit(f, minBlock)
    requires |bytes| < U64
    requires f.items == [Header, Item.Block(toks), Trailer, Header, Item.Block([Literal(b)]), Trailer]
    requires minBlock < |Decode([], toks).out|
    ensures |Out(f, 6)| == |Decode([], toks).out| + 1
    ensures exists rs :: ParseAll(GzipKind, WriteAll(bs), 0) == Some(rs) && UncompressedSize(Plain(rs)) == |Decode([], toks).out|
  {
    hide Sized, Decode, Storable, WriteAll, ParseAll, Entries, Out;
    TwoMembers(f, minBlock, toks, b);
    EntriesMatch(f, bytes, minBlock, bs);
    RunsToNext(f, bytes, minBlock, bs, 0);
    EntryOf(f, bytes, minBlock, bs, 0);
    EntryOf(f, bytes, minBlock, bs, 1);
    AllStorable(f, bytes, minBlock, bs);
    Reload(GzipKind, bs, 0);
    StopsAtSecond(bs);
  }

  lemma StopsAtSecond(bs: seq<GzipRecord>)
    requires 2 <= |bs| && bs[0].block.usize != 0 && bs[1].block.usize == 0 && bs[0].block.uoff == 0
    ensures UpToEmpty(bs, 0) == [bs[0]] && UncompressedSize(Plain([bs[0]])) == bs[0].block.usize
  {
    assert bs[1..][0] == bs[1];
    assert UpToEmpty(bs[1..], bs[0].block.usize) == [];
    assert At(bs[0], 0) == bs[0];
  }

  lemma TwoMembers(f: GzFile, minBlock: nat, toks: seq<Token>, b: byte)
    requires WellFormed(f) && Decodes(f) && WINDOW <= minBlock
    requires f.items == [Header, Item.Block(toks), Trailer, Header, Item.Block([Literal(b)]), Trailer]
    requires minBlock < |Decode([], toks).out|
    ensures var es, out := Entries(f, minBlock, 1, 0), Decode([], toks).out;
            && 2 <= |es| && es[0].at == 1 && es[1].at == 2 && es[0].uoff == 0 && es[1].uoff == |out|
            && |Out(f, 6)| == |out| + 1
  {
    var out := Decode([], toks).out;
    TwoMembersOut(f, toks, b);
    FirstBlock(f, 1);
    hide Decode, Survives, Out, MemberOut;
    assert Judge(f, 2) == Dependent;
    var rest := Entries(f, minBlock, 2, 0);
    assert Entries(f, minBlock, 1, 0) == [EntryAt(f, 1, [])] + rest;
    assert Pick(f, minBlock, 2, 0) == Some(EntryAt(f, 2, LastWindow(Out(f, 2))));
    assert rest == [EntryAt(f, 2, LastWindow(Out(f, 2)))] + Entries(f, minBlock, 3, |out|);
  }

  lemma TwoMembersOut(f: GzFile, toks: seq<Token>, b: byte)
    requires f.items == [Header, Item.Block(toks), Trailer, Header, Item.Block([Literal(b)]), Trailer]
    ensures var out := Decode([], toks).out;
            Out(f, 1) == [] && MemberOut(f, 1) == [] && Out(f, 2) == out && Out(f, 6) == out + [b]
  {
    hide Decode, Out, MemberOut, ItemOut;
    var out := Decode([], toks).out;
    OneLiteral(b);
    StartsEmpty(f);
    SameOut(f, 0);
    NoOut(f, 0);
    BlockOut(f, 1);
    SameOut(f, 2);
    SameOut(f, 3);
    NoOut(f, 3);
    BlockOut(f, 4);
    SameOut(f, 5);
  }

  lemma OneLiteral(b: byte)
    ensures Decode([], [Literal(b)]).out == [b]
  {
    assert Decode([] + [b], []) == Decoded([], true);
  }

  lemma StartsEmpty(f: GzFile)
    ensures Out(f, 0) == []
  {
  }
}
