/** Scanning an lzop file for its blocks (`LzopFile::buildIndex`, `findBlocks`). */
module Lzop {
  import opened Bits
  import opened Blocks
  import opened BlockIndex
  import opened Wrappers

  const ADLER_DEC: bv32 := 1 << 0
  const ADLER_COMP: bv32 := 1 << 1
  const CRC_DEC: bv32 := 1 << 8
  const CRC_COMP: bv32 := 1 << 9

  /** What `readHeaders` makes of the header of a member: its flags and size,
      of which the magic alone is nine bytes. */
  type HeaderSize = n: nat | 9 < n witness 10
  datatype Header = Header(flags: bv32, size: HeaderSize)

  /** A file, and its headers by position. */
  datatype LzoFile = LzoFile(bytes: seq<byte>, header: nat -> Option<Header>)

  // ----- The layout of a file -----

  /** A stored block: its two sizes, checksums and data. */
  datatype Part = Part(usize: nat, csize: nat, sums: seq<byte>, data: seq<byte>)

  datatype Member = Member(flags: bv32, header: seq<byte>, parts: seq<Part>)

  function Flag(flags: bv32, flag: bv32): nat {
    if flags & flag != 0 then 1 else 0
  }

  /** Checksums of the uncompressed data, and, unless the block is stored as it
      is, of the compressed data. */
  function SumsSize(flags: bv32, usize: nat, csize: nat): nat {
    4 * (Flag(flags, CRC_DEC) + Flag(flags, ADLER_DEC))
    + if usize != csize then 4 * (Flag(flags, CRC_COMP) + Flag(flags, ADLER_COMP)) else 0
  }

  predicate GoodPart(flags: bv32, p: Part) {
    0 < p.usize < U32 && p.csize < U32 && |p.sums| == SumsSize(flags, p.usize, p.csize) && |p.data| == p.csize
  }

  predicate GoodParts(flags: bv32, parts: seq<Part>) {
    parts == [] || (GoodPart(flags, parts[0]) && GoodParts(flags, parts[1..]))
  }

  function PartBytes(p: Part): seq<byte> {
    ToBE(p.usize, 4) + ToBE(p.csize, 4) + p.sums + p.data
  }

  /** The blocks of a member end with a zero size. */
  function BodyBytes(parts: seq<Part>): seq<byte> {
    if parts == [] then ToBE(0, 4) else PartBytes(parts[0]) + BodyBytes(parts[1..])
  }

  /** `s` stands in the file at `pos`. */
  predicate Has(bytes: seq<byte>, pos: nat, s: seq<byte>) {
    pos + |s| <= |bytes| && bytes[pos..pos + |s|] == s
  }

  /** The file from `pos` on is the members `ms`. */
  predicate LaidOut(x: LzoFile, pos: nat, ms: seq<Member>)
    decreases |ms|
  {
    ms != [] &&
    var m := ms[0];
    var start := pos + |m.header|;
    var next := start + |BodyBytes(m.parts)|;
    && x.header(pos).Some? && x.header(pos).value.flags == m.flags && x.header(pos).value.size == |m.header|
    && Has(x.bytes, pos, m.header) && GoodParts(m.flags, m.parts) && Has(x.bytes, start, BodyBytes(m.parts))
    && if |ms| == 1 then next == |x.bytes| else LaidOut(x, next, ms[1..])
  }

  // ----- The blocks of a layout -----

  function TotalSize(parts: seq<Part>): nat {
    if parts == [] then 0 else parts[0].usize + TotalSize(parts[1..])
  }

  /** The blocks of the parts stored from `pos` on. */
  function BlocksAt(parts: seq<Part>, pos: nat, uoff: nat): seq<Block> {
    if parts == [] then []
    else
      var p := parts[0];
      [Block(p.usize, p.csize, uoff, pos + 8 + |p.sums|)] + BlocksAt(parts[1..], pos + |PartBytes(p)|, uoff + p.usize)
  }

  function IndexOf(ms: seq<Member>, pos: nat, uoff: nat): seq<Block> {
    if ms == [] then []
    else
      var m := ms[0];
      BlocksAt(m.parts, pos + |m.header|, uoff)
      + IndexOf(ms[1..], pos + |m.header| + |BodyBytes(m.parts)|, uoff + TotalSize(m.parts))
  }

  // ----- Reading the layout back -----

  /** The parts read from `pos` on, up to a zero size; nothing if the file ends before that. */
  function Parts(bytes: seq<byte>, flags: bv32, pos: nat): Option<seq<Part>>
    decreases |bytes| - pos
  {
    if |bytes| < pos + 4 then None
    else
      var usize := FromBE(bytes[pos..pos + 4]);
      if usize == 0 then Some([])
      else if |bytes| < pos + 8 then None
      else
        var csize := FromBE(bytes[pos + 4..pos + 8]);
        var sums := SumsSize(flags, usize, csize);
        var data := pos + 8 + sums;
        if |bytes| < data + csize then None
        else match Parts(bytes, flags, data + csize)
          case None => None
          case Some(rest) => Some([Part(usize, csize, bytes[pos + 8..data], bytes[data..data + csize])] + rest)
  }

  function Members(x: LzoFile, pos: nat): Option<seq<Member>>
    decreases |x.bytes| - pos
  {
    match x.header(pos)
    case None => None
    case Some(h) =>
      if |x.bytes| < pos + h.size then None
      else match Parts(x.bytes, h.flags, pos + h.size)
        case None => None
        case Some(parts) =>
          var m := Member(h.flags, x.bytes[pos..pos + h.size], parts);
          var next := pos + h.size + |BodyBytes(parts)|;
          if |x.bytes| <= next then Some([m])
          else match Members(x, next)
            case None => None
            case Some(rest) => Some([m] + rest)
  }

  lemma HasSplit(bytes: seq<byte>, pos: nat, a: seq<byte>, b: seq<byte>)
    ensures Has(bytes, pos, a + b) <==> Has(bytes, pos, a) && Has(bytes, pos + |a|, b)
  {
    if pos + |a| + |b| <= |bytes| {
      var whole := bytes[pos..pos + |a + b|];
      assert whole == bytes[pos..pos + |a|] + bytes[pos + |a|..pos + |a| + |b|];
      if whole == a + b {
        assert a == whole[..|a|] && b == whole[|a|..];
      }
    }
  }

  /** Four bytes hold one number, and the number has only those four bytes. */
  lemma {:induction false} BytesOf(s: seq<byte>)
    ensures ToBE(FromBE(s), |s|) == s && FromBE(s) < Pow256(|s|)
    decreases |s|
  {
    hide AsByte;
    if s != [] {
      var front, last := s[..|s| - 1], s[|s| - 1];
      BytesOf(front);
      assert FromBE(s) / 256 == FromBE(front) && FromBE(s) % 256 == last as nat;
      SameByte(last);
    }
  }

  lemma SameByte(b: byte)
    ensures AsByte(b as nat) == b
  {
    if b < 16 {} else if b < 32 {} else if b < 64 {} else if b < 128 {} else {}
  }

  /** A number of four bytes stands at `pos` exactly when it is read there. */
  lemma HasNumber(bytes: seq<byte>, pos: nat, n: nat)
    requires n < U32
    ensures Has(bytes, pos, ToBE(n, 4)) <==> pos + 4 <= |bytes| && FromBE(bytes[pos..pos + 4]) == n
  {
    hide ToBE, FromBE, Pow256;
    Numbers();
    RoundTripBE(n, 4);
    if pos + 4 <= |bytes| {
      BytesOf(bytes[pos..pos + 4]);
    }
  }

  /** The part read at `pos`, when there is one. */
  ghost predicate ReadsPart(bytes: seq<byte>, flags: bv32, pos: nat, p: Part) {
    var sums := SumsSize(flags, p.usize, p.csize);
    var data := pos + 8 + sums;
    && data + p.csize <= |bytes| && p.usize != 0
    && FromBE(bytes[pos..pos + 4]) == p.usize && FromBE(bytes[pos + 4..pos + 8]) == p.csize
    && p.sums == bytes[pos + 8..data] && p.data == bytes[data..data + p.csize]
  }

  lemma PartIsRead(bytes: seq<byte>, flags: bv32, pos: nat, p: Part)
    ensures GoodPart(flags, p) && Has(bytes, pos, PartBytes(p)) <==> ReadsPart(bytes, flags, pos, p)
    ensures GoodPart(flags, p) ==> |PartBytes(p)| == 8 + SumsSize(flags, p.usize, p.csize) + p.csize
  {
    hide ToBE, FromBE, SumsSize, Has;
    if GoodPart(flags, p) {
      PartSplit(bytes, pos, p);
    } else if ReadsPart(bytes, flags, pos, p) {
      SmallNumber(bytes[pos..pos + 4]);
      SmallNumber(bytes[pos + 4..pos + 8]);
    }
  }

  lemma SmallNumber(s: seq<byte>)
    requires |s| == 4
    ensures FromBE(s) < U32
  {
    BytesOf(s);
    Numbers();
  }

  lemma PartSplit(bytes: seq<byte>, pos: nat, p: Part)
    requires p.usize < U32 && p.csize < U32
    ensures var sums := pos + 8; var data := sums + |p.sums|; var end := data + |p.data|;
            Has(bytes, pos, PartBytes(p)) <==>
              && end <= |bytes| && FromBE(bytes[pos..pos + 4]) == p.usize && FromBE(bytes[pos + 4..pos + 8]) == p.csize
              && p.sums == bytes[sums..data] && p.data == bytes[data..end]
  {
    hide ToBE, FromBE;
    var a, b := ToBE(p.usize, 4), ToBE(p.csize, 4);
    HasSplit(bytes, pos, a + b + p.sums, p.data);
    HasSplit(bytes, pos, a + b, p.sums);
    HasSplit(bytes, pos, a, b);
    HasNumber(bytes, pos, p.usize);
    HasNumber(bytes, pos + 4, p.csize);
  }

  /** Reading a member's blocks inverts writing them. */
  lemma {:induction false} PartsAreBody(bytes: seq<byte>, flags: bv32, pos: nat, parts: seq<Part>)
    ensures Parts(bytes, flags, pos) == Some(parts) <==> GoodParts(flags, parts) && Has(bytes, pos, BodyBytes(parts))
    decreases |parts|
  {
    hide ToBE, FromBE, SumsSize, GoodPart, PartBytes, Has;
    if parts == [] {
      HasNumber(bytes, pos, 0);
    } else {
      var p, rest := parts[0], parts[1..];
      assert parts == [p] + rest;
      HasSplit(bytes, pos, PartBytes(p), BodyBytes(rest));
      PartIsRead(bytes, flags, pos, p);
      if ReadsPart(bytes, flags, pos, p) {
        PartsAreBody(bytes, flags, pos + |PartBytes(p)|, rest);
      }
    }
  }

  /** Scanning a file finds exactly the members it is made of: every layout is
      found, and what is found is a layout. */
  lemma {:induction false} MembersAreLayout(x: LzoFile, pos: nat, ms: seq<Member>)
    ensures Members(x, pos) == Some(ms) <==> LaidOut(x, pos, ms)
    decreases |ms|
  {
    hide Parts, BodyBytes, GoodParts;
    if ms != [] && x.header(pos).Some? {
      var h, m := x.header(pos).value, ms[0];
      PartsAreBody(x.bytes, h.flags, pos + h.size, m.parts);
      if pos + h.size <= |x.bytes| && m == Member(h.flags, x.bytes[pos..pos + h.size], m.parts) {
        var next := pos + h.size + |BodyBytes(m.parts)|;
        assert ms == [m] + ms[1..];
        if |ms| == 1 {
          assert ms == [m];
        } else {
          MembersAreLayout(x, next, ms[1..]);
        }
      }
    }
  }

  // ----- What the index says -----

  function AllParts(ms: seq<Member>): seq<Part> {
    if ms == [] then [] else ms[0].parts + AllParts(ms[1..])
  }

  /** Blocks `bs` are those of `parts`, tiled from `uoff`; none is empty, their
      data stands where they say, between `from` and `to`, and in that order. */
  ghost predicate Describe(bytes: seq<byte>, bs: seq<Block>, parts: seq<Part>, uoff: nat, from: nat, to: nat) {
    && |bs| == |parts| && Covers(bs, uoff, TotalSize(parts))
    && (forall i | 0 <= i < |bs| :: Stored(bytes, bs[i], parts[i])) && Increasing(bs, from, to)
  }

  ghost predicate Increasing(bs: seq<Block>, from: nat, to: nat) {
    && (forall i | 0 <= i < |bs| :: from < bs[i].coff <= to)
    && (forall i, j | 0 <= i < j < |bs| :: bs[i].coff < bs[j].coff)
  }

  lemma IncreasingAppend(a: seq<Block>, b: seq<Block>, from: nat, mid: nat, to: nat)
    requires Increasing(a, from, mid) && Increasing(b, mid, to) && from <= mid <= to
    ensures Increasing(a + b, from, to)
  {
  }

  ghost predicate Stored(bytes: seq<byte>, b: Block, p: Part) {
    b.usize == p.usize && 0 < b.usize < U32 && b.csize == p.csize < U32 && |p.data| == b.csize && Has(bytes, b.coff, p.data)
  }

  lemma {:induction false} TotalAppend(a: seq<Part>, b: seq<Part>)
    ensures TotalSize(a + b) == TotalSize(a) + TotalSize(b)
    decreases |a|
  {
    if a == [] {
      assert a + b == b;
    } else {
      assert (a + b)[1..] == a[1..] + b;
      TotalAppend(a[1..], b);
    }
  }

  lemma DescribeAppend(bytes: seq<byte>, bs: seq<Block>, parts: seq<Part>, bs': seq<Block>, parts': seq<Part>,
                       uoff: nat, from: nat, mid: nat, to: nat)
    requires Describe(bytes, bs, parts, uoff, from, mid) && from <= mid <= to
    requires Describe(bytes, bs', parts', uoff + TotalSize(parts), mid, to)
    ensures Describe(bytes, bs + bs', parts + parts', uoff, from, to)
  {
    hide Stored, Covers, Increasing;
    IncreasingAppend(bs, bs', from, mid, to);
    TotalAppend(parts, parts');
    CoversAppend(bs, bs', uoff, TotalSize(parts), TotalSize(parts'));
  }

  lemma {:induction false} PartsDescribed(bytes: seq<byte>, flags: bv32, parts: seq<Part>, pos: nat, uoff: nat)
    requires GoodParts(flags, parts) && Has(bytes, pos, BodyBytes(parts))
    ensures Describe(bytes, BlocksAt(parts, pos, uoff), parts, uoff, pos, pos + |BodyBytes(parts)|)
    decreases |parts|
  {
    hide ToBE, Has, SumsSize, Describe, Stored;
    if parts == [] {
      NothingDescribed(bytes, uoff, pos, pos + 4);
    } else {
      var p, rest := parts[0], parts[1..];
      var next := pos + |PartBytes(p)|;
      HasSplit(bytes, pos, PartBytes(p), BodyBytes(rest));
      PartsDescribed(bytes, flags, rest, next, uoff + p.usize);
      PartDescribed(bytes, flags, p, pos, uoff);
      DescribeAppend(bytes, [Block(p.usize, p.csize, uoff, pos + 8 + |p.sums|)], [p], BlocksAt(rest, next, uoff + p.usize), rest,
                     uoff, pos, next, pos + |BodyBytes(parts)|);
      assert [p] + rest == parts;
    }
  }

  lemma NothingDescribed(bytes: seq<byte>, uoff: nat, from: nat, to: nat)
    ensures Describe(bytes, [], [], uoff, from, to)
  {
  }

  lemma PartDescribed(bytes: seq<byte>, flags: bv32, p: Part, pos: nat, uoff: nat)
    requires GoodPart(flags, p) && Has(bytes, pos, PartBytes(p))
    ensures TotalSize([p]) == p.usize
    ensures Describe(bytes, [Block(p.usize, p.csize, uoff, pos + 8 + |p.sums|)], [p], uoff, pos, pos + |PartBytes(p)|)
  {
    hide ToBE, Has;
    HasSplit(bytes, pos, ToBE(p.usize, 4) + ToBE(p.csize, 4) + p.sums, p.data);
  }

  /** The index of a layout lists every stored block of every member, with its
      sizes and the place of its data, and tiles the uncompressed file. */
  lemma {:induction false} IndexDescribes(x: LzoFile, pos: nat, ms: seq<Member>, uoff: nat)
    requires LaidOut(x, pos, ms)
    ensures Describe(x.bytes, IndexOf(ms, pos, uoff), AllParts(ms), uoff, pos, |x.bytes|)
    decreases |ms|
  {
    hide Has, Describe, BlocksAt, BodyBytes, GoodParts;
    var m, rest := ms[0], ms[1..];
    var start := pos + |m.header|;
    var next := start + |BodyBytes(m.parts)|;
    PartsDescribed(x.bytes, m.flags, m.parts, start, uoff);
    if rest == [] {
      NothingDescribed(x.bytes, uoff + TotalSize(m.parts), next, next);
    } else {
      IndexDescribes(x, next, rest, uoff + TotalSize(m.parts));
      LayoutInside(x, next, rest);
    }
    From(x.bytes, BlocksAt(m.parts, start, uoff), m.parts, uoff, pos, start, next);
    DescribeAppend(x.bytes, BlocksAt(m.parts, start, uoff), m.parts, IndexOf(rest, next, uoff + TotalSize(m.parts)), AllParts(rest),
                   uoff, pos, next, |x.bytes|);
  }

  lemma From(bytes: seq<byte>, bs: seq<Block>, parts: seq<Part>, uoff: nat, from: nat, later: nat, to: nat)
    requires Describe(bytes, bs, parts, uoff, later, to) && from <= later
    ensures Describe(bytes, bs, parts, uoff, from, to)
  {
    hide Stored;
  }

  lemma LayoutInside(x: LzoFile, pos: nat, ms: seq<Member>)
    requires LaidOut(x, pos, ms)
    ensures pos <= |x.bytes|
  {
  }

  // ----- The same, by position -----

  /** The checksums before the data of a block: Adler-32 and CRC-32 of the
      uncompressed data as bits 0 and 8 of the flags say, and, if the block is
      compressed, those of the compressed data as bits 1 and 9 say. */
  function ChecksumBytes(flags: bv32, compressed: bool): nat {
    (if flags & 0x1 != 0 then 4 else 0) + (if flags & 0x100 != 0 then 4 else 0)
    + (if compressed && flags & 0x2 != 0 then 4 else 0) + (if compressed && flags & 0x200 != 0 then 4 else 0)
  }

  lemma SumsAre(flags: bv32, usize: nat, csize: nat)
    ensures SumsSize(flags, usize, csize) == ChecksumBytes(flags, usize != csize)
  {
    assert ADLER_DEC == 0x1 && ADLER_COMP == 0x2 && CRC_DEC == 0x100 && CRC_COMP == 0x200;
  }

  /** A block with its two sizes at `p`, then its checksums, then its data. */
  predicate BlockAt(bytes: seq<byte>, flags: bv32, b: Block, p: nat) {
    && p + 8 <= |bytes| && Word(bytes, p) == b.usize != 0 && Word(bytes, p + 4) == b.csize
    && b.coff == p + 8 + ChecksumBytes(flags, b.usize != b.csize) && b.coff + b.csize <= |bytes|
  }

  /** Where block `i` begins: where the one before it ends. */
  function HeadOf(bs: seq<Block>, from: nat, i: nat): nat
    requires i <= |bs|
  {
    if i == 0 then from else bs[i - 1].coff + bs[i - 1].csize
  }

  /** The blocks stand one after another from `from` on, and then a zero size,
      which ends at `to`. */
  ghost predicate InPlace(bytes: seq<byte>, flags: bv32, bs: seq<Block>, from: nat, to: nat) {
    && (forall i: nat | i < |bs| :: BlockAt(bytes, flags, bs[i], HeadOf(bs, from, i)))
    && HeadOf(bs, from, |bs|) + 4 == to <= |bytes| && Word(bytes, HeadOf(bs, from, |bs|)) == 0
  }

  lemma HeadCons(b: Block, bs: seq<Block>, from: nat, i: nat)
    requires i <= |bs|
    ensures HeadOf([b] + bs, from, 0) == from && HeadOf([b] + bs, from, i + 1) == HeadOf(bs, b.coff + b.csize, i)
  {
  }

  lemma InPlaceCons(bytes: seq<byte>, flags: bv32, b: Block, bs: seq<Block>, from: nat, to: nat)
    ensures InPlace(bytes, flags, [b] + bs, from, to) <==> BlockAt(bytes, flags, b, from) && InPlace(bytes, flags, bs, b.coff + b.csize, to)
  {
    hide BlockAt, Word, HeadOf;
    var all, next := [b] + bs, b.coff + b.csize;
    HeadCons(b, bs, from, |bs|);
    if InPlace(bytes, flags, all, from, to) {
      assert BlockAt(bytes, flags, all[0], HeadOf(all, from, 0));
      forall i: nat | i < |bs|
        ensures BlockAt(bytes, flags, bs[i], HeadOf(bs, next, i))
      {
        HeadCons(b, bs, from, i);
        var j := i + 1;
        assert BlockAt(bytes, flags, all[j], HeadOf(all, from, j));
      }
    }
    if BlockAt(bytes, flags, b, from) && InPlace(bytes, flags, bs, next, to) {
      forall i: nat | i < |all|
        ensures BlockAt(bytes, flags, all[i], HeadOf(all, from, i))
      {
        if 0 < i {
          HeadCons(b, bs, from, i - 1);
          assert BlockAt(bytes, flags, bs[i - 1], HeadOf(bs, next, i - 1));
        }
      }
    }
  }

  lemma InPlaceNone(bytes: seq<byte>, flags: bv32, from: nat, to: nat)
    ensures InPlace(bytes, flags, [], from, to) <==> from + 4 == to <= |bytes| && Word(bytes, from) == 0
  {
  }

  /** What is read from `pos` on are the blocks in place there. */
  lemma {:induction false} PartsInPlace(bytes: seq<byte>, flags: bv32, pos: nat, uoff: nat)
    requires Parts(bytes, flags, pos).Some?
    ensures var parts := Parts(bytes, flags, pos).value;
            InPlace(bytes, flags, BlocksAt(parts, pos, uoff), pos, pos + |BodyBytes(parts)|)
    decreases |bytes| - pos
  {
    hide FromBE, SumsSize, InPlace, Word, ToBE;
    WordRead(bytes, pos);
    var parts := Parts(bytes, flags, pos).value;
    if parts == [] {
      InPlaceNone(bytes, flags, pos, pos + 4);
    } else {
      WordRead(bytes, pos + 4);
      var p, rest := parts[0], parts[1..];
      var next := pos + |PartBytes(p)|;
      SumsAre(flags, p.usize, p.csize);
      PartsInPlace(bytes, flags, next, uoff + p.usize);
      InPlaceCons(bytes, flags, Block(p.usize, p.csize, uoff, pos + 8 + |p.sums|), BlocksAt(rest, next, uoff + p.usize),
                  pos, pos + |BodyBytes(parts)|);
    }
  }

  /** And blocks in place are read. */
  lemma {:induction false} InPlaceIsRead(bytes: seq<byte>, flags: bv32, bs: seq<Block>, pos: nat, to: nat)
    requires InPlace(bytes, flags, bs, pos, to)
    ensures Parts(bytes, flags, pos).Some? && to == pos + |BodyBytes(Parts(bytes, flags, pos).value)|
    ensures |bs| == |Parts(bytes, flags, pos).value|
    decreases |bs|
  {
    hide FromBE, SumsSize, InPlace, Word, ToBE;
    if bs == [] {
      InPlaceNone(bytes, flags, pos, to);
      WordRead(bytes, pos);
    } else {
      var b, rest := bs[0], bs[1..];
      assert bs == [b] + rest;
      InPlaceCons(bytes, flags, b, rest, pos, to);
      InPlaceIsRead(bytes, flags, rest, b.coff + b.csize, to);
      WordRead(bytes, pos);
      WordRead(bytes, pos + 4);
      SumsAre(flags, b.usize, b.csize);
    }
  }

  lemma NoneInPlace(bytes: seq<byte>, flags: bv32, pos: nat)
    requires Parts(bytes, flags, pos).None?
    ensures forall bs, to :: !InPlace(bytes, flags, bs, pos, to)
  {
    hide InPlace, Parts;
    forall bs, to | InPlace(bytes, flags, bs, pos, to)
      ensures Parts(bytes, flags, pos).Some?
    {
      InPlaceIsRead(bytes, flags, bs, pos, to);
    }
  }

  /** At `pos` there is a header, and then, up to `end`, the first `n` blocks in place. */
  ghost predicate StartsMember(x: LzoFile, bs: seq<Block>, pos: nat, n: nat, end: nat) {
    && x.header(pos).Some? && n <= |bs| && pos < end <= |x.bytes|
    && InPlace(x.bytes, x.header(pos).value.flags, bs[..n], pos + x.header(pos).value.size, end)
  }

  /** From `pos` on the file is members up to its end; `bs` are the blocks of them all. */
  ghost predicate FileInPlace(x: LzoFile, bs: seq<Block>, pos: nat)
    decreases |x.bytes| - pos
  {
    exists n: nat, end: nat :: StartsMember(x, bs, pos, n, end) && if end == |x.bytes| then n == |bs| else FileInPlace(x, bs[n..], end)
  }

  lemma {:induction false} LaidOutInPlace(x: LzoFile, pos: nat, ms: seq<Member>, uoff: nat)
    requires LaidOut(x, pos, ms)
    ensures FileInPlace(x, IndexOf(ms, pos, uoff), pos)
    decreases |ms|
  {
    hide InPlace, Parts, BodyBytes, BlocksAt, GoodParts, TotalSize, Has;
    var m, rest := ms[0], ms[1..];
    var start := pos + |m.header|;
    var next := start + |BodyBytes(m.parts)|;
    var first, later := BlocksAt(m.parts, start, uoff), IndexOf(rest, next, uoff + TotalSize(m.parts));
    PartsAreBody(x.bytes, m.flags, start, m.parts);
    PartsInPlace(x.bytes, m.flags, start, uoff);
    var bs, n := IndexOf(ms, pos, uoff), |first|;
    assert bs == first + later;
    assert bs[..n] == first && bs[n..] == later;
    if |ms| == 1 {
      NoMembers(next, uoff + TotalSize(m.parts));
      assert rest == [];
    } else {
      LaidOutInPlace(x, next, rest, uoff + TotalSize(m.parts));
      FileEnds(x, later, next);
    }
    assert StartsMember(x, bs, pos, n, next);
  }

  lemma FileEnds(x: LzoFile, bs: seq<Block>, pos: nat)
    requires FileInPlace(x, bs, pos)
    ensures pos < |x.bytes|
  {
    hide InPlace;
  }

  lemma {:induction false} InPlaceMembers(x: LzoFile, bs: seq<Block>, pos: nat)
    requires FileInPlace(x, bs, pos)
    ensures Members(x, pos).Some?
    decreases |x.bytes| - pos
  {
    hide InPlace, Parts, BodyBytes;
    var h := x.header(pos).value;
    var n: nat, end: nat :| StartsMember(x, bs, pos, n, end) && if end == |x.bytes| then n == |bs| else FileInPlace(x, bs[n..], end);
    InPlaceIsRead(x.bytes, h.flags, bs[..n], pos + h.size, end);
    if end != |x.bytes| {
      InPlaceMembers(x, bs[n..], end);
    }
  }

  /** A file is made of members exactly if it has blocks in place, and these are
      then those of the index. */
  lemma MembersInPlace(x: LzoFile)
    ensures Members(x, 0).Some? <==> exists bs :: FileInPlace(x, bs, 0)
    ensures Members(x, 0).Some? ==> var bs := IndexOf(Members(x, 0).value, 0, 0); FileInPlace(x, bs, 0) && Tiled(bs, 0)
  {
    hide Members, LaidOut, FileInPlace, IndexOf, AllParts, TotalSize, Stored, Increasing;
    if Members(x, 0).Some? {
      var ms := Members(x, 0).value;
      MembersAreLayout(x, 0, ms);
      LaidOutInPlace(x, 0, ms, 0);
      IndexDescribes(x, 0, ms, 0);
    }
    if bs :| FileInPlace(x, bs, 0) {
      InPlaceMembers(x, bs, 0);
    }
  }

  /** One member's share of that. */
  lemma MemberInPlace(bytes: seq<byte>, flags: bv32, parts: seq<Part>, pos: nat, uoff: nat)
    requires Parts(bytes, flags, pos) == Some(parts)
    ensures InPlace(bytes, flags, BlocksAt(parts, pos, uoff), pos, pos + |BodyBytes(parts)|)
    ensures Covers(BlocksAt(parts, pos, uoff), uoff, TotalSize(parts))
  {
    hide InPlace, Parts, BodyBytes, BlocksAt, GoodParts, TotalSize, Has, Stored, Increasing, Covers;
    PartsInPlace(bytes, flags, pos, uoff);
    PartsAreBody(bytes, flags, pos, parts);
    PartsDescribed(bytes, flags, parts, pos, uoff);
  }

  // ----- The scan -----

  /** What scanning member `parts` has come to, with `rest` still to scan from `coff` on. */
  ghost predicate OnTrack(all: Option<seq<Part>>, start: nat, base: seq<Block>, from: nat,
                          rest: Option<seq<Part>>, coff: nat, blocks: seq<Block>, uoff: nat) {
    match rest
    case None => all.None?
    case Some(ps) =>
      && all.Some? && blocks + BlocksAt(ps, coff, uoff) == base + BlocksAt(all.value, start, from)
      && uoff + TotalSize(ps) == from + TotalSize(all.value) && coff + |BodyBytes(ps)| == start + |BodyBytes(all.value)|
  }

  lemma NextPart(bytes: seq<byte>, flags: bv32, coff: nat, blocks: seq<Block>, uoff: nat)
    requires coff + 8 <= |bytes| && FromBE(bytes[coff..coff + 4]) != 0
    ensures var usize, csize := FromBE(bytes[coff..coff + 4]), FromBE(bytes[coff + 4..coff + 8]);
            var sums := SumsSize(flags, usize, csize);
            OnTrack(Parts(bytes, flags, coff), coff, blocks, uoff, Parts(bytes, flags, coff + 8 + sums + csize),
                    coff + 8 + sums + csize, blocks + [Block(usize, csize, uoff, coff + 8 + sums)], uoff + usize)
  {
    hide FromBE, SumsSize, PartBytes;
    var usize, csize := FromBE(bytes[coff..coff + 4]), FromBE(bytes[coff + 4..coff + 8]);
    var sums := coff + 8;
    var data := sums + SumsSize(flags, usize, csize);
    PartsStep(bytes, flags, coff, usize, csize, data);
    hide Parts;
    var rest := Parts(bytes, flags, data + csize);
    if rest.Some? {
      PartsCons(Part(usize, csize, bytes[sums..data], bytes[data..data + csize]), rest.value, coff, uoff);
    }
  }

  lemma PartsStep(bytes: seq<byte>, flags: bv32, coff: nat, usize: nat, csize: nat, data: nat)
    requires coff + 8 <= |bytes| && FromBE(bytes[coff..coff + 4]) == usize != 0 && FromBE(bytes[coff + 4..coff + 8]) == csize
    requires data == coff + 8 + SumsSize(flags, usize, csize)
    ensures var rest := Parts(bytes, flags, data + csize);
            if rest.None? then Parts(bytes, flags, coff) == None
            else data + csize <= |bytes|
                 && Parts(bytes, flags, coff) == Some([Part(usize, csize, bytes[coff + 8..data], bytes[data..data + csize])] + rest.value)
  {
    hide FromBE, SumsSize;
    if |bytes| < data + csize {
      TooShort(bytes, flags, data + csize);
    }
  }

  lemma PartsCons(p: Part, rest: seq<Part>, pos: nat, uoff: nat)
    ensures var next, all := pos + |PartBytes(p)|, [p] + rest;
            && BlocksAt(all, pos, uoff) == [Block(p.usize, p.csize, uoff, pos + 8 + |p.sums|)] + BlocksAt(rest, next, uoff + p.usize)
            && TotalSize(all) == p.usize + TotalSize(rest) && |BodyBytes(all)| == |PartBytes(p)| + |BodyBytes(rest)|
            && |PartBytes(p)| == 8 + |p.sums| + |p.data|
  {
    assert ([p] + rest)[1..] == rest;
  }

  class LzopScanner {
    const x: LzoFile
    var tell: nat
    var mFlags: bv32
    var mBlocks: seq<Block>

    constructor (x: LzoFile)
      ensures this.x == x && tell == 0 && mBlocks == []
    {
      this.x, tell, mFlags, mBlocks := x, 0, 0, [];
    }

    method ReadBE() returns (ok: bool, n: nat)
      modifies this`tell
      ensures ok <==> old(tell) + 4 <= |x.bytes|
      ensures ok ==> tell == old(tell) + 4 && n == FromBE(x.bytes[old(tell)..old(tell) + 4])
    {
      if |x.bytes| < tell + 4 {
        return false, 0;
      }
      n := FromBE(x.bytes[tell..tell + 4]);
      tell := tell + 4;
      ok := true;
    }

    /** Adds the blocks of one member, which stand one after another from here
        on; returns where its uncompressed data ends, or fails if the file ends first. */
    method FindBlocks(flags: bv32, from: nat) returns (r: Option<nat>)
      modifies this`tell, this`mBlocks
      ensures var parts := Parts(x.bytes, flags, old(tell));
              && (r.Some? <==> parts.Some?)
              && (r.Some? ==> && r.value == from + TotalSize(parts.value)
                              && tell == old(tell) + |BodyBytes(parts.value)|
                              && mBlocks == old(mBlocks) + BlocksAt(parts.value, old(tell), from))
      ensures r.Some? <==> exists bs, to :: InPlace(x.bytes, flags, bs, old(tell), to)
      ensures r.Some? ==> old(mBlocks) <= mBlocks && from <= r.value
                          && InPlace(x.bytes, flags, mBlocks[|old(mBlocks)|..], old(tell), tell)
                          && Covers(mBlocks[|old(mBlocks)|..], from, r.value - from)
    {
      hide FromBE, Flag, Parts, BlocksAt, BodyBytes, OnTrack, InPlace, Covers, TotalSize;
      // four bytes for each checksum the flags call for
      var csums, usums := 4 * (Flag(flags, CRC_COMP) + Flag(flags, ADLER_COMP)), 4 * (Flag(flags, CRC_DEC) + Flag(flags, ADLER_DEC));
      var coff, uoff := tell, from;
      ghost var base, start := mBlocks, tell;
      ghost var all := Parts(x.bytes, flags, start);
      Setting(all, start, base, from);
      while true
        invariant coff == tell
        invariant OnTrack(all, start, base, from, Parts(x.bytes, flags, coff), coff, mBlocks, uoff)
        decreases |x.bytes| - tell
      {
        var ok, usize := ReadBE();
        if !ok {
          TooShort(x.bytes, flags, coff);
          Failed(all, start, base, from, coff, mBlocks, uoff);
          NoneInPlace(x.bytes, flags, start);
          return None;
        }
        if usize == 0 {
          Ends(x.bytes, flags, coff);
          Finished(all, start, base, from, coff, mBlocks, uoff);
          MemberInPlace(x.bytes, flags, all.value, start, from);
          assert mBlocks[|base|..] == BlocksAt(all.value, start, from);
          return Some(uoff);
        }
        var csize;
        ok, csize := ReadBE();
        if !ok {
          TooShort(x.bytes, flags, coff);
          Failed(all, start, base, from, coff, mBlocks, uoff);
          NoneInPlace(x.bytes, flags, start);
          return None;
        }
        var sums := usums;
        if usize != csize {
          sums := sums + csums;
        }
        NextPart(x.bytes, flags, coff, mBlocks, uoff);
        ghost var was, at, u := mBlocks, coff, uoff;
        mBlocks := mBlocks + [Block(usize, csize, uoff, coff + 8 + sums)];
        coff := coff + sums + csize + 8;
        uoff := uoff + usize;
        tell := tell + sums + csize;
        Chain(all, start, base, from, Parts(x.bytes, flags, at), at, was, u, Parts(x.bytes, flags, coff), coff, mBlocks, uoff);
      }
    }

    method ReadHeaders() returns (ok: bool, flags: bv32)
      modifies this`tell
      ensures ok <==> x.header(old(tell)).Some?
      ensures ok ==> flags == x.header(old(tell)).value.flags && tell == old(tell) + x.header(old(tell)).value.size
    {
      match x.header(tell)
      case None => return false, 0;
      case Some(h) =>
        tell := tell + h.size;
        return true, h.flags;
    }

    /** Scans every member, the first of which has had its header read. Fails
        unless the file is members from end to end, and then lists their blocks. */
    method BuildIndex() returns (ok: bool)
      requires x.header(0).Some? && x.header(0).value.flags == mFlags && x.header(0).value.size == tell
      modifies this`tell, this`mBlocks
      ensures ok <==> exists ms :: LaidOut(x, 0, ms)
      ensures forall ms | LaidOut(x, 0, ms) :: mBlocks == old(mBlocks) + IndexOf(ms, 0, 0)
      ensures ok <==> exists bs :: FileInPlace(x, bs, 0)
      ensures ok ==> old(mBlocks) <= mBlocks && FileInPlace(x, mBlocks[|old(mBlocks)|..], 0) && Tiled(mBlocks[|old(mBlocks)|..], 0)
    {
      hide Parts, Members, LaidOut, BlocksAt, BodyBytes, TotalSize, IndexOf, ToGo, FileInPlace, InPlace, Covers, Tiled;
      var flags, uoff: nat := mFlags, 0;
      ghost var pos: nat, base := 0, mBlocks;
      ToGoStart(x, base);
      AllLaidOut(x);
      MembersInPlace(x);
      while true
        invariant x.header(pos).Some? && flags == x.header(pos).value.flags && tell == pos + x.header(pos).value.size
        invariant ToGo(x, base, pos, mBlocks, uoff)
        decreases |x.bytes| - pos
      {
        ToGoStep(x, base, pos, mBlocks, uoff);
        var end := FindBlocks(flags, uoff);
        if end.None? {
          return false;
        }
        uoff := end.value;
        if tell >= |x.bytes| {
          assert mBlocks[|base|..] == IndexOf(Members(x, 0).value, 0, 0);
          return true;
        }
        pos := tell;
        ToGoStuck(x, base, pos, mBlocks, uoff);
        ok, flags := ReadHeaders();
        if !ok {
          return false;
        }
      }
    }
  }

  lemma ToGoStart(x: LzoFile, base: seq<Block>)
    ensures ToGo(x, base, 0, base, 0)
  {
    hide IndexOf, Members;
  }

  lemma ToGoStep(x: LzoFile, base: seq<Block>, pos: nat, blocks: seq<Block>, uoff: nat)
    requires ToGo(x, base, pos, blocks, uoff) && x.header(pos).Some?
    ensures var start := pos + x.header(pos).value.size;
            var parts := Parts(x.bytes, x.header(pos).value.flags, start);
            match parts
            case None => Members(x, 0).None?
            case Some(ps) =>
              var next, blocks', uoff' := start + |BodyBytes(ps)|, blocks + BlocksAt(ps, start, uoff), uoff + TotalSize(ps);
              if |x.bytes| <= next then Members(x, 0).Some? && blocks' == base + IndexOf(Members(x, 0).value, 0, 0)
              else ToGo(x, base, next, blocks', uoff')
  {
    hide BlocksAt, BodyBytes, TotalSize, Members, IndexOf, Parts;
    var start := pos + x.header(pos).value.size;
    MembersStep(x, pos);
    if |x.bytes| < start {
      TooShort(x.bytes, x.header(pos).value.flags, start);
    }
    if Members(x, pos).Some? {
      var ps := Parts(x.bytes, x.header(pos).value.flags, start).value;
      var next := start + |BodyBytes(ps)|;
      var rest := if |x.bytes| <= next then [] else Members(x, next).value;
      Extend(Member(x.header(pos).value.flags, x.bytes[pos..start], ps), rest, pos, uoff);
      assert [Member(x.header(pos).value.flags, x.bytes[pos..start], ps)] + [] == [Member(x.header(pos).value.flags, x.bytes[pos..start], ps)];
      Regroup(blocks, BlocksAt(ps, start, uoff), IndexOf(rest, next, uoff + TotalSize(ps)));
      NoMembers(next, uoff + TotalSize(ps));
    }
  }

  lemma Regroup(a: seq<Block>, b: seq<Block>, c: seq<Block>)
    ensures a + (b + c) == (a + b) + c
    ensures c == [] ==> a + (b + c) == a + b
  {
  }

  lemma NoMembers(pos: nat, uoff: nat)
    ensures IndexOf([], pos, uoff) == []
  {
  }

  lemma MembersStep(x: LzoFile, pos: nat)
    requires x.header(pos).Some?
    ensures var start := pos + x.header(pos).value.size;
            Members(x, pos) ==
            match Parts(x.bytes, x.header(pos).value.flags, start)
            case None => None
            case Some(ps) =>
              if |x.bytes| < start then None
              else
                var m, next := Member(x.header(pos).value.flags, x.bytes[pos..start], ps), start + |BodyBytes(ps)|;
                if |x.bytes| <= next then Some([m])
                else match Members(x, next)
                  case None => None
                  case Some(rest) => Some([m] + rest)
  {
    hide BodyBytes, Parts;
  }

  lemma Extend(m: Member, rest: seq<Member>, pos: nat, uoff: nat)
    ensures var start := pos + |m.header|;
            IndexOf([m] + rest, pos, uoff) ==
            BlocksAt(m.parts, start, uoff) + IndexOf(rest, start + |BodyBytes(m.parts)|, uoff + TotalSize(m.parts))
  {
    hide BlocksAt, BodyBytes, TotalSize;
    assert ([m] + rest)[1..] == rest;
  }

  lemma ToGoStuck(x: LzoFile, base: seq<Block>, pos: nat, blocks: seq<Block>, uoff: nat)
    requires ToGo(x, base, pos, blocks, uoff)
    ensures x.header(pos).None? ==> Members(x, 0).None?
  {
  }

  lemma AllLaidOut(x: LzoFile)
    ensures Members(x, 0).Some? <==> exists ms :: LaidOut(x, 0, ms)
    ensures forall ms | LaidOut(x, 0, ms) :: Members(x, 0) == Some(ms)
  {
    hide Members, LaidOut;
    forall ms: seq<Member>
      ensures Members(x, 0) == Some(ms) <==> LaidOut(x, 0, ms)
    {
      MembersAreLayout(x, 0, ms);
    }
    if Members(x, 0).Some? {
      MembersAreLayout(x, 0, Members(x, 0).value);
    }
  }

  /** With `blocks` listed, the members from `pos` on are still to come. */
  ghost predicate ToGo(x: LzoFile, base: seq<Block>, pos: nat, blocks: seq<Block>, uoff: nat) {
    match Members(x, pos)
    case None => Members(x, 0).None?
    case Some(ms) => Members(x, 0).Some? && blocks + IndexOf(ms, pos, uoff) == base + IndexOf(Members(x, 0).value, 0, 0)
  }

  lemma Setting(all: Option<seq<Part>>, start: nat, base: seq<Block>, from: nat)
    ensures OnTrack(all, start, base, from, all, start, base, from)
  {
  }

  lemma Chain(all: Option<seq<Part>>, start: nat, base: seq<Block>, from: nat,
              rest: Option<seq<Part>>, coff: nat, blocks: seq<Block>, uoff: nat,
              rest': Option<seq<Part>>, coff': nat, blocks': seq<Block>, uoff': nat)
    requires OnTrack(all, start, base, from, rest, coff, blocks, uoff)
    requires OnTrack(rest, coff, blocks, uoff, rest', coff', blocks', uoff')
    ensures OnTrack(all, start, base, from, rest', coff', blocks', uoff')
  {
    hide BlocksAt, BodyBytes, TotalSize;
  }

  lemma TooShort(bytes: seq<byte>, flags: bv32, pos: nat)
    requires |bytes| < pos + 4 || (|bytes| < pos + 8 && FromBE(bytes[pos..pos + 4]) != 0)
    ensures Parts(bytes, flags, pos) == None
  {
  }

  lemma Ends(bytes: seq<byte>, flags: bv32, pos: nat)
    requires pos + 4 <= |bytes| && FromBE(bytes[pos..pos + 4]) == 0
    ensures Parts(bytes, flags, pos) == Some([])
  {
  }

  lemma Failed(all: Option<seq<Part>>, start: nat, base: seq<Block>, from: nat, coff: nat, blocks: seq<Block>, uoff: nat)
    requires OnTrack(all, start, base, from, None, coff, blocks, uoff)
    ensures all.None?
  {
  }

  lemma Finished(all: Option<seq<Part>>, start: nat, base: seq<Block>, from: nat, coff: nat, blocks: seq<Block>, uoff: nat)
    requires OnTrack(all, start, base, from, Some([]), coff, blocks, uoff)
    ensures all.Some? && blocks == base + BlocksAt(all.value, start, from)
    ensures uoff == from + TotalSize(all.value) && coff + 4 == start + |BodyBytes(all.value)|
  {
  }
}
