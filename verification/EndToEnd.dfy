/** From the index builders to the readers: what the builders produce is what
    cached reads need, so a read of an indexed file returns its bytes. */
module EndToEnd {
  import opened Bits
  import opened Blocks
  import B = Bzip2Index
  import N = Bzip2Full
  import M = Bzip2Recover
  import S = Bzip2Scan
  import X = BlockIndex
  import opened Bzip2Format
  import C = BlockCache
  import I = BlockCacheInv
  import R = BlockCacheRuns
  import opened Deflate
  import opened GzipLayout
  import opened GzipSpec
  import F = GzipFile
  import G = GzipUse
  import L = Lzop
  import opened Lookup
  import opened Wrappers

  /** File `file` may be read through the cache: each of its blocks decompresses
      to what the cache takes to be the block's data. */
  ghost predicate Served<R>(file: C.File, rs: seq<R>, unpack: R -> Option<seq<byte>>) {
    && C.GoodFile(file) && |file.blocks| == |rs|
    && forall i: nat | i < |rs| :: unpack(rs[i]) == Some(C.Data(file, i))
  }

  /** How each block of a file is decompressed, if it can be. */
  type Decompressor = nat -> Option<seq<byte>>

  ghost predicate ServedBy(file: C.File, dec: Decompressor) {
    C.GoodFile(file) && forall i: nat | i < |file.blocks| :: dec(i) == Some(C.Data(file, i))
  }

  lemma ServedIsServedBy<R>(file: C.File, rs: seq<R>, unpack: R -> Option<seq<byte>>)
    requires Served(file, rs, unpack)
    ensures ServedBy(file, (i: nat) => if i < |rs| then unpack(rs[i]) else None)
  {
  }

  /** What the first `n` blocks decompress to, one after another. */
  function Decompressed(dec: Decompressor, n: nat): seq<byte> {
    if n == 0 then [] else Decompressed(dec, n - 1) + if dec(n - 1).Some? then dec(n - 1).value else []
  }

  /** The content of a served file is what its blocks decompress to. */
  lemma {:induction false} ContentDecompressed(file: C.File, dec: Decompressor, n: nat)
    requires ServedBy(file, dec) && n <= |file.blocks|
    ensures var end := if n == 0 then 0 else file.blocks[n - 1].uoff + file.blocks[n - 1].usize;
            end <= |file.content| && Decompressed(dec, n) == file.content[..end]
    decreases n
  {
    if n != 0 {
      ContentDecompressed(file, dec, n - 1);
      I.BlockBounds(file, n - 1);
      var b := file.blocks[n - 1];
      assert file.content[..b.uoff] + file.content[b.uoff..b.uoff + b.usize] == file.content[..b.uoff + b.usize];
    }
  }

  /** Over files that are served by their decompressors, every read that
      finishes, in every run, has returned what the blocks decompress to. */
  lemma EveryReadServed(cfg: C.Config, decs: seq<Decompressor>, s0: C.State, steps: seq<C.Step>, c: nat)
    requires |decs| == |cfg.files| && forall i: nat | i < |decs| :: ServedBy(cfg.files[i], decs[i])
    requires I.Initial(s0) && I.Runs(cfg, s0, steps) && c < |I.RunTo(cfg, s0, steps).clients|
    ensures var cl := I.RunTo(cfg, s0, steps).clients[c];
            cl.phase == C.Done ==>
              var req, n := cl.req, cl.max - cl.req.offset;
              && req.file < |cfg.files|
              && var whole := Decompressed(decs[req.file], |cfg.files[req.file].blocks|);
                 && req.offset < |whole| && n == (if req.offset + req.size < |whole| then req.size else |whole| - req.offset)
                 && n <= |cl.buf| == req.size && cl.buf[..n] == whole[req.offset..req.offset + n]
  {
    hide I.Initial, I.Runs, I.RunTo, I.Inv, I.First, I.Last, C.Data;
    var cl := I.RunTo(cfg, s0, steps).clients[c];
    forall f | f in cfg.files
      ensures C.GoodFile(f)
    {
      var i: nat :| i < |cfg.files| && cfg.files[i] == f;
      assert ServedBy(cfg.files[i], decs[i]);
    }
    R.EveryReadRight(cfg, s0, steps, c);
    if cl.phase == C.Done {
      if cl.req.file < |cfg.files| {
        var file := cfg.files[cl.req.file];
        assert ServedBy(file, decs[cl.req.file]);
        ContentDecompressed(file, decs[cl.req.file], |file.blocks|);
        assert file.content[..|file.content|] == file.content;
      }
    }
  }

  // ----- gzip -----

  /** Before any output, no entry is made at a trailer. */
  lemma {:induction false} FirstNotAtTrailer(f: GzFile, minBlock: nat, k: nat)
    requires WellFormed(f) && Decodes(f) && k <= |f.items| && Out(f, k) == []
    ensures var es := Entries(f, minBlock, k, 0);
            es != [] ==> es[0].at < |f.items| && !f.items[es[0].at].Trailer?
    decreases |f.items| - k
  {
    hide Decode, Survives, SelfContained;
    if k < |f.items| {
      if f.items[k].Block? {
        var pre := MemberIsTail(f, k);
        AlwaysContained(f, k);
        TrialDecides(f, k, [], []);
      }
      if Pick(f, minBlock, k, 0).None? {
        if f.items[k].Block? {
          EmptyAddsNothing(f, k);
        }
        FirstNotAtTrailer(f, minBlock, k + 1);
      }
    }
  }

  /** A gzip index serves its file, empty blocks and all, exactly when no
      uncompressed size is cut off. */
  lemma GzipServed(f: GzFile, bytes: seq<byte>, minBlock: nat, bs: seq<GzipRecord>)
    requires G.IsIndex(f, bytes, minBlock, bs) && |Out(f, |f.items|)| < C.OFF_END
    ensures Served(C.File(Plain(bs), Out(f, |f.items|)), bs, b => G.DecompressBlock(f, b)) <==> G.EntriesFit(f, minBlock)
  {
    hide G.IsIndex, G.EntriesFit, G.DecompressBlock, Out, C.GoodFile, C.Data, WellFormed, Decodes;
    HasEnds(f, bytes, minBlock, bs);
    var file := C.File(Plain(bs), Out(f, |f.items|));
    if G.EntriesFit(f, minBlock) {
      GzipGood(f, bytes, minBlock, bs);
      forall i: nat | i < |bs|
        ensures G.DecompressBlock(f, bs[i]) == Some(C.Data(file, i))
      {
        GzipRead(f, bytes, minBlock, bs, i);
      }
    }
    if C.GoodFile(file) {
      GoodCovers(file);
      G.BlocksCover(f, bytes, minBlock, bs);
    }
  }

  lemma GoodCovers(file: C.File)
    requires C.GoodFile(file)
    ensures Covers(file.blocks, 0, |file.content|)
  {
  }

  lemma HasEnds(f: GzFile, bytes: seq<byte>, minBlock: nat, bs: seq<GzipRecord>)
    requires G.IsIndex(f, bytes, minBlock, bs)
    ensures 1 <= |f.items| < |f.ends|
  {
    hide F.Sized, Entries, Decodes;
  }

  lemma GzipRead(f: GzFile, bytes: seq<byte>, minBlock: nat, bs: seq<GzipRecord>, i: nat)
    requires G.IsIndex(f, bytes, minBlock, bs) && G.EntriesFit(f, minBlock) && i < |bs|
    ensures |f.items| < |f.ends| && G.DecompressBlock(f, bs[i]) == Some(C.Data(C.File(Plain(bs), Out(f, |f.items|)), i))
  {
    hide G.IsIndex, G.EntriesFit, G.DecompressBlock, Out, WellFormed, Decodes, Plain;
    HasEnds(f, bytes, minBlock, bs);
    G.BlocksRead(f, bytes, minBlock, bs, i);
  }

  lemma GzipGood(f: GzFile, bytes: seq<byte>, minBlock: nat, bs: seq<GzipRecord>)
    requires G.IsIndex(f, bytes, minBlock, bs) && G.EntriesFit(f, minBlock) && |Out(f, |f.items|)| < C.OFF_END
    ensures C.GoodFile(C.File(Plain(bs), Out(f, |f.items|)))
  {
    hide G.IsIndex, G.EntriesFit, Out, WellFormed, Decodes;
    HasEnds(f, bytes, minBlock, bs);
    G.BlocksCover(f, bytes, minBlock, bs);
    forall i, j | 0 <= i < j < |bs|
      ensures bs[i].block.coff != bs[j].block.coff
    {
      G.OffsetsIncrease(f, bytes, minBlock, bs, i, j);
    }
    if bs != [] {
      GzipFirst(f, bytes, minBlock, bs);
    }
  }

  lemma NothingYet(f: GzFile)
    requires WellFormed(f)
    ensures Out(f, 1) == []
  {
  }

  lemma GzipFirst(f: GzFile, bytes: seq<byte>, minBlock: nat, bs: seq<GzipRecord>)
    requires G.IsIndex(f, bytes, minBlock, bs) && G.EntriesFit(f, minBlock) && bs != []
    ensures bs[0].block.usize != 0
  {
    hide Decode, ItemOut, Entries, F.Sized, G.EntriesFit;
    NothingYet(f);
    FirstNotAtTrailer(f, minBlock, 1);
    G.EmptyBlocks(f, bytes, minBlock, bs, 0);
  }

  // ----- bzip2 -----

  /** Every block that the library takes holds something. */
  ghost predicate NoEmptyBlocks(unpack: B.Unpack) {
    forall r: B.Range :: unpack(r) != Some([])
  }

  ghost predicate Separate(bs: seq<Bzip2Record>, from: nat) {
    && (forall i | 0 <= i < |bs| :: from <= bs[i].block.coff && bs[i].block.usize != 0)
    && (forall i, j | 0 <= i < j < |bs| :: bs[i].block.coff < bs[j].block.coff)
  }

  lemma {:induction false} BlocksSeparate(unpack: B.Unpack, cur: S.Boundary, level: byte, truth: seq<S.Boundary>, uoff: nat)
    requires NoEmptyBlocks(unpack) && B.Taken(unpack, cur, level, truth) && B.SizesFit(unpack, cur, level, truth)
    ensures Separate(B.BlocksOf(unpack, cur, level, truth, uoff), cur.coff)
    decreases |truth|
  {
    hide Separate, NoEmptyBlocks;
    if truth == [] {
      NoneSeparate(cur.coff);
    } else {
      var next, lv, level' := truth[0], B.LevelAt(cur, level), B.LevelAfter(cur, level, truth[0]);
      var usize := B.SizeOf(unpack, B.RangeOf(lv, cur, next));
      var uoff' := if cur.magic == EOS_MAGIC then uoff else uoff + usize;
      BlocksSeparate(unpack, next, level', truth[1..], uoff');
      var bs := B.BlocksOf(unpack, next, level', truth[1..], uoff');
      if cur.magic == EOS_MAGIC {
        SeparateFrom(bs, cur, next);
      } else {
        OneMore(unpack, cur, next, lv, uoff, bs);
      }
    }
  }

  lemma NoneSeparate(from: nat)
    ensures Separate([], from)
  {
  }

  lemma SeparateFrom(bs: seq<Bzip2Record>, cur: S.Boundary, next: S.Boundary)
    requires Separate(bs, next.coff) && cur.coff <= next.coff
    ensures Separate(bs, cur.coff)
  {
  }

  lemma OneMore(unpack: B.Unpack, cur: S.Boundary, next: S.Boundary, level: byte, uoff: nat, bs: seq<Bzip2Record>)
    requires NoEmptyBlocks(unpack) && unpack(B.RangeOf(level, cur, next)).Some? && Separate(bs, next.coff) && cur.coff < next.coff
    requires B.SizeOf(unpack, B.RangeOf(level, cur, next)) < U32
    ensures Separate([B.MakeBlock(cur, next, uoff, B.SizeOf(unpack, B.RangeOf(level, cur, next)), level)] + bs, cur.coff)
  {
    var r := B.RangeOf(level, cur, next);
    assert unpack(r).value != [];
  }

  /** So does a bzip2 index of blocks that the library takes. */
  lemma Bzip2Served(unpack: B.Unpack, first: S.Boundary, level: byte, truth: seq<S.Boundary>)
    requires NoEmptyBlocks(unpack) && B.Taken(unpack, first, level, truth)
    requires B.SpansFit(first, truth) && |B.Content(unpack, first, level, truth)| < C.OFF_END
    ensures var bs := B.BlocksOf(unpack, first, level, truth, 0);
            Served(C.File(Plain(bs), B.Content(unpack, first, level, truth)), bs, b => B.DecompressBlock(unpack, b))
            <==> B.SizesFit(unpack, first, level, truth)
  {
    hide B.BlocksOf, B.Content, B.SpansFit, B.SizesFit, B.Taken, B.DecompressBlock, B.Sound, NoEmptyBlocks, C.GoodFile;
    var bs, content := B.BlocksOf(unpack, first, level, truth, 0), B.Content(unpack, first, level, truth);
    var file := C.File(Plain(bs), content);
    B.IndexSound(unpack, first, level, truth, 0);
    if B.SizesFit(unpack, first, level, truth) {
      BlocksSeparate(unpack, first, level, truth, 0);
      SoundServed(unpack, bs, content);
    }
    if Served(file, bs, b => B.DecompressBlock(unpack, b)) {
      ServedSound(unpack, bs, content);
    }
  }

  lemma SoundServed(unpack: B.Unpack, bs: seq<Bzip2Record>, content: seq<byte>)
    requires B.Sound(unpack, bs, content, 0) && Separate(bs, 0) && |content| < C.OFF_END
    ensures Served(C.File(Plain(bs), content), bs, b => B.DecompressBlock(unpack, b))
  {
    hide B.DecompressBlock, Covers, C.GoodFile, Separate;
    var file := C.File(Plain(bs), content);
    SeparateGood(bs, content);
    forall i: nat | i < |bs|
      ensures B.DecompressBlock(unpack, bs[i]) == Some(C.Data(file, i))
    {
      assert bs[i] in bs;
      WithinTotal(file.blocks, |content|, i);
    }
  }

  lemma ServedSound(unpack: B.Unpack, bs: seq<Bzip2Record>, content: seq<byte>)
    requires Served(C.File(Plain(bs), content), bs, b => B.DecompressBlock(unpack, b))
    ensures B.Sound(unpack, bs, content, 0)
  {
    hide B.DecompressBlock, Covers, C.GoodFile, Plain;
    var file := C.File(Plain(bs), content);
    GoodCovers(file);
    forall b | b in bs
      ensures B.Delivers(unpack, b, content, 0)
    {
      var i: nat :| i < |bs| && bs[i] == b;
      WithinTotal(file.blocks, |content|, i);
    }
  }

  lemma SeparateGood(bs: seq<Bzip2Record>, content: seq<byte>)
    requires Covers(Plain(bs), 0, |content|) && Separate(bs, 0) && |content| < C.OFF_END
    ensures C.GoodFile(C.File(Plain(bs), content))
  {
    hide Plain, Tiled;
  }

  lemma {:induction false} WithinTotal(bs: seq<Block>, total: nat, i: nat)
    requires Covers(bs, 0, total) && i < |bs|
    ensures bs[i].uoff + bs[i].usize <= total
    decreases |bs| - i
  {
    if i + 1 < |bs| {
      WithinTotal(bs, total, i + 1);
    }
  }

  lemma {:induction false} BlocksStorable(unpack: B.Unpack, cur: S.Boundary, level: byte, truth: seq<S.Boundary>, uoff: nat)
    requires forall b | b in [cur] + truth :: b.bits < 8 && b.coff < U64
    ensures forall r | r in B.BlocksOf(unpack, cur, level, truth, uoff) :: X.OfKind(r, X.Bzip2Kind) && X.Storable(r)
    decreases |truth|
  {
    if truth != [] {
      var next := truth[0];
      assert cur in [cur] + truth && [next] + truth[1..] == truth;
      var usize := B.SizeOf(unpack, B.RangeOf(B.LevelAt(cur, level), cur, next));
      BlocksStorable(unpack, next, B.LevelAfter(cur, level, next), truth[1..], if cur.magic == EOS_MAGIC then uoff else uoff + usize);
    }
  }

  /** If no size is cut off, it has no empty block, and survives being saved and loaded. */
  lemma Bzip2Saved(unpack: B.Unpack, first: S.Boundary, level: byte, truth: seq<S.Boundary>)
    requires NoEmptyBlocks(unpack) && B.Taken(unpack, first, level, truth)
    requires B.SpansFit(first, truth) && B.SizesFit(unpack, first, level, truth)
    requires forall b | b in [first] + truth :: b.bits < 8 && b.coff < U64
    ensures var bs := B.BlocksOf(unpack, first, level, truth, 0); X.ParseAll(X.Bzip2Kind, X.WriteAll(bs), 0) == Some(bs)
  {
    hide B.BlocksOf, B.Content, B.SpansFit, B.SizesFit, B.Taken, NoEmptyBlocks, X.Storable, X.ParseAll, X.WriteAll, B.Delivers, Covers;
    var bs := B.BlocksOf(unpack, first, level, truth, 0);
    BlocksStorable(unpack, first, level, truth, 0);
    BlocksSeparate(unpack, first, level, truth, 0);
    B.IndexSound(unpack, first, level, truth, 0);
    CoversTiled(Plain(bs), |B.Content(unpack, first, level, truth)|);
    X.RoundTrip(X.Bzip2Kind, bs);
  }

  lemma CoversTiled(bs: seq<Block>, total: nat)
    requires Covers(bs, 0, total)
    ensures Tiled(bs, 0)
  {
  }

  /** What such an index says its blocks hold. */
  ghost predicate Fits(unpack: B.Unpack, first: S.Boundary, truth: seq<S.Boundary>) {
    && B.SpansFit(first, truth) && B.SizesFit(unpack, first, 0, truth)
    && |B.Content(unpack, first, 0, truth)| < C.OFF_END
  }

  /** From the bytes of a bzip2 file and the library: whatever index there is of
      a file with true boundaries `truth`, up to any of them, is one that the
      cache can serve. Each of its blocks can be cut out of the file again, and
      it survives being saved and loaded. */
  lemma Bzip2FileServed(file: seq<byte>, lib: B.Library, back: iset<nat>, unpack: B.Unpack, truth: seq<S.Boundary>, upTo: seq<S.Boundary>,
                        index: seq<Bzip2Record>)
    requires 4 + S.WORD < |file| < U64 && M.Truth(file, |file| - S.WORD - 1, back, unpack, truth) && upTo <= truth
    requires B.Answers(file, lib, unpack) && NoEmptyBlocks(unpack) && Fits(unpack, M.First(file), upTo)
    requires N.Outcome(back, unpack, M.First(file), upTo) == Some(index)
    ensures Served(C.File(Plain(index), B.Content(unpack, M.First(file), 0, upTo)), index, b => B.DecompressBlock(unpack, b))
    ensures forall b | b in index :: B.Whole(file, b)
    ensures X.ParseAll(X.Bzip2Kind, X.WriteAll(index), 0) == Some(index)
  {
    hide B.BlocksOf, B.Content, B.SpansFit, B.SizesFit, B.Taken, B.Answers, B.Whole, B.DecompressBlock, NoEmptyBlocks, M.Layout, M.AtSeam,
      X.ParseAll, X.WriteAll, Served, S.MagicAt;
    var first, last := M.First(file), |file| - S.WORD - 1;
    M.HeaderBytes(file);
    M.LayoutTaken(file, last, back, unpack, first, 0, truth, upTo);
    M.LayoutKnown(file, last, back, unpack, first, 0, truth);
    forall b | b in [first] + upTo
      ensures M.Known(file, b) && b.coff + S.WORD <= |file| && b.bits < 8
    {
      assert b == first || b in truth;
    }
    assert forall t | t in upTo :: t in [first] + upTo;
    M.BlocksWhole(file, lib, unpack, first, 0, upTo, 0);
    Bzip2Served(unpack, first, 0, upTo);
    Bzip2Saved(unpack, first, 0, upTo);
  }

  /** Opening a bzip2 file, with every read full: the index, if there is one, is
      served and saved, and has all the true blocks up to a stream that follows
      one that ends badly. */
  method OpenBzip2(file: seq<byte>, lib: B.Library, ghost unpack: B.Unpack) returns (index: Option<seq<Bzip2Record>>, ghost vs: seq<S.Visit>)
    requires M.HasHeader(file) && 4 + S.WORD < |file| < U64
    requires B.Answers(file, lib, unpack) && B.NoZeroSums(file, unpack) && M.NeedsLevel(unpack) && NoEmptyBlocks(unpack)
    ensures forall truth | M.Truth(file, |file| - S.WORD - 1, N.Multiples(|file| - S.WORD - 1), unpack, truth) ::
              var upTo := N.UpTo(vs, M.First(file), truth);
              && index == N.Outcome(N.Multiples(|file| - S.WORD - 1), unpack, M.First(file), upTo)
              && (index.Some? && Fits(unpack, M.First(file), upTo) ==>
                    && Served(C.File(Plain(index.value), B.Content(unpack, M.First(file), 0, upTo)), index.value, b => B.DecompressBlock(unpack, b))
                    && X.ParseAll(X.Bzip2Kind, X.WriteAll(index.value), 0) == Some(index.value))
  {
    hide B.Content, B.Answers, B.NoZeroSums, M.NeedsLevel, NoEmptyBlocks, M.Truth, Served, Fits, N.Outcome, N.UpTo, N.Multiples,
      S.Enumerates, S.Run, S.FullReads, M.NoOtherLevel, M.Cut, M.GoneBack, X.ParseAll, X.WriteAll, B.DecompressBlock;
    index, vs := N.IndexFile(file, lib, true, unpack);
    ghost var back := N.Multiples(|file| - S.WORD - 1);
    forall truth | M.Truth(file, |file| - S.WORD - 1, back, unpack, truth) && index.Some? && Fits(unpack, M.First(file), N.UpTo(vs, M.First(file), truth))
      ensures var upTo := N.UpTo(vs, M.First(file), truth);
              && Served(C.File(Plain(index.value), B.Content(unpack, M.First(file), 0, upTo)), index.value, b => B.DecompressBlock(unpack, b))
              && X.ParseAll(X.Bzip2Kind, X.WriteAll(index.value), 0) == Some(index.value)
    {
      N.UpToPrefix(vs, M.First(file), truth);
      Bzip2FileServed(file, lib, back, unpack, truth, N.UpTo(vs, M.First(file), truth), index.value);
    }
  }

  // ----- lzop -----

  /** The LZO library: what some bytes expand to, in a buffer of a given size. */
  type Expand = (seq<byte>, nat) -> Option<seq<byte>>

  function Unpacked(expand: Expand, data: seq<byte>, usize: nat): Option<seq<byte>> {
    if |data| == usize then Some(data) else expand(data, usize)
  }

  /** `LzopFile::decompressBlock`. */
  function LzopBlock(x: L.LzoFile, expand: Expand, b: Block): Option<seq<byte>> {
    if |x.bytes| < b.coff + b.csize then None else Unpacked(expand, x.bytes[b.coff..b.coff + b.csize], b.usize)
  }

  ghost predicate Expands(expand: Expand, parts: seq<L.Part>) {
    forall p | p in parts :: var out := Unpacked(expand, p.data, p.usize); out.Some? && |out.value| == p.usize
  }

  function LzopContent(expand: Expand, parts: seq<L.Part>): seq<byte> {
    if parts == [] then []
    else
      var out := Unpacked(expand, parts[0].data, parts[0].usize);
      (if out.Some? then out.value else []) + LzopContent(expand, parts[1..])
  }

  lemma {:induction false} PartOfContent(expand: Expand, parts: seq<L.Part>, bs: seq<Block>, from: nat, i: nat)
    requires Expands(expand, parts) && i < |bs| == |parts| && Tiled(bs, from)
    requires forall k | 0 <= k < |bs| :: bs[k].usize == parts[k].usize
    ensures var at, content := bs[i].uoff - from, LzopContent(expand, parts);
            && 0 <= at <= at + bs[i].usize <= |content|
            && Some(content[at..at + bs[i].usize]) == Unpacked(expand, parts[i].data, parts[i].usize)
    decreases |bs|
  {
    hide Unpacked, Expands, Tiled, LzopContent;
    FirstPart(expand, parts);
    var first, rest := Unpacked(expand, parts[0].data, parts[0].usize).value, LzopContent(expand, parts[1..]);
    TiledRest(bs, from);
    if i == 0 {
      assert (first + rest)[0..|first|] == first;
    } else {
      PartOfContent(expand, parts[1..], bs[1..], from + bs[0].usize, i - 1);
      Shifted(first, rest, bs[i].uoff - from - bs[0].usize, bs[i].usize);
    }
  }

  lemma FirstPart(expand: Expand, parts: seq<L.Part>)
    requires Expands(expand, parts) && parts != []
    ensures Unpacked(expand, parts[0].data, parts[0].usize).Some? && Expands(expand, parts[1..])
    ensures |Unpacked(expand, parts[0].data, parts[0].usize).value| == parts[0].usize
    ensures LzopContent(expand, parts) == Unpacked(expand, parts[0].data, parts[0].usize).value + LzopContent(expand, parts[1..])
  {
    hide Unpacked;
    assert parts[0] in parts;
  }

  lemma Shifted(a: seq<byte>, b: seq<byte>, at: nat, n: nat)
    requires at + n <= |b|
    ensures (a + b)[|a| + at..|a| + at + n] == b[at..at + n]
  {
  }

  lemma {:induction false} ContentSize(expand: Expand, parts: seq<L.Part>)
    requires Expands(expand, parts)
    ensures |LzopContent(expand, parts)| == L.TotalSize(parts)
    decreases |parts|
  {
    hide Unpacked;
    if parts != [] {
      assert parts[0] in parts;
      ContentSize(expand, parts[1..]);
    }
  }

  /** And so does an lzop index, whatever checksums its members have. */
  lemma LzopServed(x: L.LzoFile, ms: seq<L.Member>, expand: Expand)
    requires L.LaidOut(x, 0, ms) && Expands(expand, L.AllParts(ms)) && |LzopContent(expand, L.AllParts(ms))| < C.OFF_END
    ensures var bs := L.IndexOf(ms, 0, 0);
            Served(C.File(bs, LzopContent(expand, L.AllParts(ms))), bs, b => LzopBlock(x, expand, b))
  {
    hide L.LaidOut, L.IndexOf, L.AllParts, LzopContent, Expands, L.TotalSize, LzopBlock, L.Describe;
    var parts, bs := L.AllParts(ms), L.IndexOf(ms, 0, 0);
    L.IndexDescribes(x, 0, ms, 0);
    DescribedFile(x, bs, parts, expand);
    forall i: nat | i < |bs|
      ensures LzopBlock(x, expand, bs[i]) == Some(C.Data(C.File(bs, LzopContent(expand, parts)), i))
    {
      DescribedBlock(x, bs, parts, expand, i);
    }
  }

  lemma DescribedFile(x: L.LzoFile, bs: seq<Block>, parts: seq<L.Part>, expand: Expand)
    requires L.Describe(x.bytes, bs, parts, 0, 0, |x.bytes|) && Expands(expand, parts) && |LzopContent(expand, parts)| < C.OFF_END
    ensures |bs| == |parts| && C.GoodFile(C.File(bs, LzopContent(expand, parts)))
  {
    hide LzopContent, Expands, L.TotalSize, L.Has;
    ContentSize(expand, parts);
    if bs != [] {
      assert L.Stored(x.bytes, bs[0], parts[0]);
    }
  }

  lemma DescribedBlock(x: L.LzoFile, bs: seq<Block>, parts: seq<L.Part>, expand: Expand, i: nat)
    requires L.Describe(x.bytes, bs, parts, 0, 0, |x.bytes|) && Expands(expand, parts) && i < |bs|
    ensures LzopBlock(x, expand, bs[i]) == Some(C.Data(C.File(bs, LzopContent(expand, parts)), i))
  {
    hide LzopContent, Expands, L.TotalSize, Unpacked, L.Increasing;
    assert L.Stored(x.bytes, bs[i], parts[i]);
    PartOfContent(expand, parts, bs, 0, i);
  }

  /** What the content holds for a block is its bytes in the file, if it is
      stored as it is, and otherwise what the library makes of them. */
  lemma LzopContentIs(x: L.LzoFile, ms: seq<L.Member>, expand: Expand, i: nat)
    requires L.LaidOut(x, 0, ms) && Expands(expand, L.AllParts(ms)) && i < |L.IndexOf(ms, 0, 0)|
    ensures var b, content := L.IndexOf(ms, 0, 0)[i], LzopContent(expand, L.AllParts(ms));
            && b.uoff + b.usize <= |content| && b.coff + b.csize <= |x.bytes|
            && var data, slice := x.bytes[b.coff..b.coff + b.csize], content[b.uoff..b.uoff + b.usize];
               if b.csize == b.usize then slice == data else expand(data, b.usize) == Some(slice)
  {
    hide L.LaidOut, L.IndexOf, L.AllParts, LzopContent, Expands, L.TotalSize, L.Increasing;
    var parts, bs := L.AllParts(ms), L.IndexOf(ms, 0, 0);
    L.IndexDescribes(x, 0, ms, 0);
    assert L.Stored(x.bytes, bs[i], parts[i]);
    PartOfContent(expand, parts, bs, 0, i);
  }

  function Records(bs: seq<Block>): (rs: seq<Record>)
    ensures |rs| == |bs| && forall i | 0 <= i < |bs| :: rs[i] == PlainBlock(bs[i])
  {
    seq(|bs|, i requires 0 <= i < |bs| => PlainBlock(bs[i]))
  }

  /** Neither has an lzop index, so it too survives. */
  lemma LzopSaved(x: L.LzoFile, ms: seq<L.Member>)
    requires L.LaidOut(x, 0, ms) && |x.bytes| < U64
    ensures var rs := Records(L.IndexOf(ms, 0, 0)); X.ParseAll(X.PlainKind, X.WriteAll(rs), 0) == Some(rs)
  {
    hide L.LaidOut, L.IndexOf, L.AllParts, L.Has, L.TotalSize, X.ParseAll, X.WriteAll;
    var parts, bs := L.AllParts(ms), L.IndexOf(ms, 0, 0);
    var rs := Records(bs);
    L.IndexDescribes(x, 0, ms, 0);
    assert Plain(rs) == bs;
    forall r | r in rs
      ensures X.OfKind(r, X.PlainKind) && X.Storable(r) && r.block.usize != 0
    {
      var i: nat :| i < |rs| && rs[i] == r;
      assert L.Stored(x.bytes, bs[i], parts[i]);
    }
    X.RoundTrip(X.PlainKind, rs);
  }
}
