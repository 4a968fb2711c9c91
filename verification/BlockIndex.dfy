/** The persisted `.blockIdx` file (`IndexedCompFile`, `Bzip2File` and `GzipFile`
    `readBlock` / `writeBlock`). */
module BlockIndex {
  import opened Bits
  import opened Blocks
  import opened Wrappers

  const WINDOW_SIZE: nat := 32768
  const BLOCK_BITS_MASK: byte := 0x07
  const BLOCK_DICT_FLAG: byte := 0x80

  // ----- Big-endian integers -----

  function AsByte(n: nat): (b: byte)
    requires n < 256
    ensures b as nat == n
  {
    ByteValue(n);
    n as byte
  }

  lemma ByteValue(n: nat)
    requires n < 256
    ensures (n as byte) as nat == n
  {
    if n < 16 {} else if n < 32 {} else if n < 64 {} else if n < 128 {} else {}
  }

  function Pow256(w: nat): (p: nat)
    ensures 0 < p
  {
    if w == 0 then 1 else 256 * Pow256(w - 1)
  }

  /** An unsigned integer of `w` bytes, most significant first. */
  function ToBE(n: nat, w: nat): (s: seq<byte>)
    ensures |s| == w
  {
    if w == 0 then [] else ToBE(n / 256, w - 1) + [AsByte(n % 256)]
  }

  function FromBE(s: seq<byte>): nat {
    if s == [] then 0 else 256 * FromBE(s[..|s| - 1]) + s[|s| - 1] as nat
  }

  lemma {:induction false} RoundTripBE(n: nat, w: nat)
    requires n < Pow256(w)
    ensures FromBE(ToBE(n, w)) == n
    decreases w
  {
    hide AsByte;
    if w != 0 {
      var s, last := ToBE(n, w), AsByte(n % 256);
      assert s[..w - 1] == ToBE(n / 256, w - 1) && s[w - 1] == last;
      RoundTripBE(n / 256, w - 1);
      assert FromBE(s) == 256 * FromBE(s[..w - 1]) + last as nat;
    }
  }

  lemma Numbers()
    ensures Pow256(4) == U32 && Pow256(8) == U64
  {
    assert Pow256(2) == 65536;
    assert Pow256(4) == 256 * (256 * Pow256(2));
    assert Pow256(6) == 256 * (256 * Pow256(4));
    assert Pow256(8) == 256 * (256 * Pow256(6));
  }

  /** The number that the four bytes at `p` are, most significant first. */
  function Word(s: seq<byte>, p: nat): nat
    requires p + 4 <= |s|
  {
    0x100_0000 * s[p] as nat + 0x1_0000 * s[p + 1] as nat + 0x100 * s[p + 2] as nat + s[p + 3] as nat
  }

  lemma OneMore(a: seq<byte>, b: byte)
    ensures FromBE(a + [b]) == 256 * FromBE(a) + b as nat
  {
    assert (a + [b])[..|a|] == a;
  }

  lemma FourMore(a: seq<byte>, s: seq<byte>, p: nat)
    requires p + 4 <= |s|
    ensures FromBE(a + s[p..p + 4]) == U32 * FromBE(a) + Word(s, p)
  {
    hide FromBE;
    OneMore(a, s[p]);
    OneMore(a + [s[p]], s[p + 1]);
    OneMore(a + [s[p]] + [s[p + 1]], s[p + 2]);
    OneMore(a + [s[p]] + [s[p + 1]] + [s[p + 2]], s[p + 3]);
    assert a + s[p..p + 4] == a + [s[p]] + [s[p + 1]] + [s[p + 2]] + [s[p + 3]];
  }

  /** Reading four bytes, or eight, gives the number they are. */
  lemma WordRead(s: seq<byte>, p: nat)
    requires p + 4 <= |s|
    ensures FromBE(s[p..p + 4]) == Word(s, p)
    ensures p + 8 <= |s| ==> FromBE(s[p..p + 8]) == U32 * Word(s, p) + Word(s, p + 4)
  {
    hide Word;
    FourMore([], s, p);
    assert [] + s[p..p + 4] == s[p..p + 4];
    if p + 8 <= |s| {
      FourMore(s[p..p + 4], s, p + 4);
      assert s[p..p + 8] == s[p..p + 4] + s[p + 4..p + 8];
    }
  }

  // ----- One record -----

  datatype Kind = PlainKind | Bzip2Kind | GzipKind

  predicate OfKind(r: Record, kind: Kind) {
    match kind
    case PlainKind => r.PlainBlock?
    case Bzip2Kind => r.Bzip2Block?
    case GzipKind => r.GzipBlock?
  }

  /** The values the fields of a record can hold, and that survive being packed. */
  predicate Storable(r: Record) {
    && r.block.usize < U32 && r.block.csize < U32 && r.block.coff < U64
    && match r
       case PlainBlock(_) => true
       case Bzip2Block(_, bits, endbits, _) => bits < 16 && endbits < 16
       case GzipBlock(_, bits, dict) => bits < 8 && (dict == [] || |dict| == WINDOW_SIZE)
  }

  function PackBits(bits: nat, endbits: nat): byte {
    Nibbles(AsByte(endbits % 256), AsByte(bits % 256))
  }

  function Nibbles(high: byte, low: byte): byte {
    (high << 4) + low
  }

  function PackFlags(bits: nat, dict: seq<byte>): byte {
    (AsByte(bits % 256) & BLOCK_BITS_MASK) | (if dict != [] then BLOCK_DICT_FLAG else 0)
  }

  lemma NibblesBack(high: byte, low: byte)
    requires high < 16 && low < 16
    ensures Nibbles(high, low) & 0x0f == low && Nibbles(high, low) >> 4 == high
  {
  }

  lemma Small(n: nat)
    requires n < 16
    ensures AsByte(n) < 16
  {
  }

  lemma PackBitsBack(bits: nat, endbits: nat)
    requires bits < 16 && endbits < 16
    ensures PackBits(bits, endbits) & 0x0f == AsByte(bits)
    ensures PackBits(bits, endbits) >> 4 == AsByte(endbits)
  {
    hide AsByte, Nibbles;
    Small(bits);
    Small(endbits);
    NibblesBack(AsByte(endbits), AsByte(bits));
    assert bits % 256 == bits && endbits % 256 == endbits;
  }

  lemma PackFlagsBack(bits: nat, dict: seq<byte>)
    requires bits < 8
    ensures (PackFlags(bits, dict) & BLOCK_BITS_MASK) as nat == bits
    ensures PackFlags(bits, dict) & BLOCK_DICT_FLAG != 0 <==> dict != []
  {
    hide AsByte;
    var b := AsByte(bits);
    assert b < 8;
  }

  function WriteRecord(r: Record): seq<byte> {
    ToBE(r.block.usize, 4) + ToBE(r.block.csize, 4) + ToBE(r.block.coff, 8) +
    match r
    case PlainBlock(_) => []
    case Bzip2Block(_, bits, endbits, level) => [PackBits(bits, endbits), level]
    case GzipBlock(_, bits, dict) => [PackFlags(bits, dict)] + dict
  }

  /** One record read from the front of `s`: the end marker, a record and what
      follows it, or the end of the file too soon. */
  datatype ReadResult = EndOfIndex | ReadOk(r: Record, rest: seq<byte>) | EndOfFile

  function ReadRecord(kind: Kind, s: seq<byte>): (res: ReadResult)
    ensures res.ReadOk? ==> |res.rest| < |s|
  {
    if |s| < 4 then EndOfFile
    else if FromBE(s[..4]) == 0 then EndOfIndex
    else if |s| < 16 then EndOfFile
    else
      // where the block goes depends on those before it
      ReadExtra(kind, Block(FromBE(s[..4]), FromBE(s[4..8]), 0, FromBE(s[8..16])), s[16..])
  }

  /** What follows the fields every format has. */
  function ReadExtra(kind: Kind, block: Block, s: seq<byte>): (res: ReadResult)
    ensures res.ReadOk? ==> |res.rest| <= |s|
  {
    match kind
    case PlainKind => ReadOk(PlainBlock(block), s)
    case Bzip2Kind =>
      if |s| < 2 then EndOfFile
      else ReadOk(Bzip2Block(block, (s[0] & 0x0f) as nat, (s[0] >> 4) as nat, s[1]), s[2..])
    case GzipKind =>
      if |s| < 1 then EndOfFile
      else
        var bits := (s[0] & BLOCK_BITS_MASK) as nat;
        if s[0] & BLOCK_DICT_FLAG == 0 then ReadOk(GzipBlock(block, bits, []), s[1..])
        else if |s| < 1 + WINDOW_SIZE then EndOfFile
        else ReadOk(GzipBlock(block, bits, s[1..1 + WINDOW_SIZE]), s[1 + WINDOW_SIZE..])
  }

  function At(r: Record, uoff: nat): Record {
    match r
    case PlainBlock(b) => PlainBlock(b.(uoff := uoff))
    case Bzip2Block(b, bits, endbits, level) => Bzip2Block(b.(uoff := uoff), bits, endbits, level)
    case GzipBlock(b, bits, dict) => GzipBlock(b.(uoff := uoff), bits, dict)
  }

  /** A record reads back as it was written, except for its position. */
  lemma RecordRoundTrip(kind: Kind, r: Record, rest: seq<byte>)
    requires OfKind(r, kind) && Storable(r)
    ensures ReadRecord(kind, WriteRecord(r) + rest) ==
            if r.block.usize == 0 then EndOfIndex else ReadOk(At(r, 0), rest)
  {
    hide ToBE, FromBE, PackBits, PackFlags, Pow256, AsByte;
    Numbers();
    var b := r.block;
    RoundTripBE(b.usize, 4);
    RoundTripBE(b.csize, 4);
    RoundTripBE(b.coff, 8);
    var head := ToBE(b.usize, 4) + ToBE(b.csize, 4) + ToBE(b.coff, 8);
    var s := WriteRecord(r) + rest;
    assert s[..16] == head;
    assert s[..4] == ToBE(b.usize, 4) && s[4..8] == ToBE(b.csize, 4) && s[8..16] == ToBE(b.coff, 8);
    match r
    case PlainBlock(_) => assert s[16..] == rest;
    case Bzip2Block(_, bits, endbits, level) =>
      PackBitsBack(bits, endbits);
      assert s[16..] == [PackBits(bits, endbits), level] + rest;
      assert s[16..][2..] == rest;
    case GzipBlock(_, bits, dict) =>
      PackFlagsBack(bits, dict);
      assert s[16..] == [PackFlags(bits, dict)] + dict + rest;
      assert s[16..][1..1 + |dict|] == dict && s[16..][1 + |dict|..] == rest;
  }

  /** What a record looks like in the file: the two sizes and the offset, most
      significant byte first; for bzip2 the bit counts in one byte, that of the
      end in its upper half, and the level; for gzip the bits and, in the top
      bit, whether a window follows. */
  lemma RecordBytes(r: Record)
    requires Storable(r)
    ensures var s := WriteRecord(r);
            && 16 <= |s| && Word(s, 0) == r.block.usize && Word(s, 4) == r.block.csize
            && U32 * Word(s, 8) + Word(s, 12) == r.block.coff
            && match r
               case PlainBlock(_) => |s| == 16
               case Bzip2Block(_, bits, endbits, level) => |s| == 18 && s[16] as nat == 16 * endbits + bits && s[17] == level
               case GzipBlock(_, bits, dict) =>
                 s[16] as nat == (if dict == [] then bits else 128 + bits) && s[17..] == dict
  {
    hide ToBE, FromBE, PackBits, PackFlags, Pow256, AsByte, Word;
    Numbers();
    var b, s := r.block, WriteRecord(r);
    RoundTripBE(b.usize, 4);
    RoundTripBE(b.csize, 4);
    RoundTripBE(b.coff, 8);
    assert s[0..4] == ToBE(b.usize, 4) && s[4..8] == ToBE(b.csize, 4) && s[8..16] == ToBE(b.coff, 8);
    WordRead(s, 0);
    WordRead(s, 4);
    WordRead(s, 8);
    match r
    case PlainBlock(_) =>
    case Bzip2Block(_, bits, endbits, level) => PackedBits(bits, endbits);
    case GzipBlock(_, bits, dict) =>
      PackedFlags(bits, dict);
      assert s[17..] == dict;
  }

  lemma PackedBits(bits: nat, endbits: nat)
    requires bits < 16 && endbits < 16
    ensures PackBits(bits, endbits) as nat == 16 * endbits + bits
  {
    hide AsByte, Nibbles;
    assert bits % 256 == bits && endbits % 256 == endbits;
    Small(bits);
    Small(endbits);
    HalvesValue(AsByte(endbits), AsByte(bits));
  }

  lemma HalvesValue(high: byte, low: byte)
    requires high < 16 && low < 16
    ensures Nibbles(high, low) as nat == 16 * high as nat + low as nat
  {
    var b := Nibbles(high, low);
    assert b >> 4 == high && b & 0x0f == low;
    HalfValues(b);
  }

  lemma HalfValues(b: byte)
    ensures b as nat == 16 * (b >> 4) as nat + (b & 0x0f) as nat
  {
  }

  lemma PackedFlags(bits: nat, dict: seq<byte>)
    requires bits < 8
    ensures PackFlags(bits, dict) as nat == if dict == [] then bits else 128 + bits
  {
    hide AsByte;
    TopBit(AsByte(bits));
  }

  lemma TopBit(b: byte)
    requires b < 8
    ensures (b & 0x07) | 0x80 == b + 0x80 && (b & 0x07) | 0 == b && (b + 0x80) as nat == 128 + b as nat
  {
  }

  // ----- The whole index -----

  function WriteAll(rs: seq<Record>): seq<byte> {
    if rs == [] then ToBE(0, 4) else WriteRecord(rs[0]) + WriteAll(rs[1..])
  }

  /** The records up to the end marker, with the positions their sizes give; or
      nothing if the file ends too soon. */
  function ParseAll(kind: Kind, s: seq<byte>, uoff: nat): Option<seq<Record>>
    decreases |s|
  {
    match ReadRecord(kind, s)
    case EndOfIndex => Some([])
    case EndOfFile => None
    case ReadOk(r, rest) =>
      match ParseAll(kind, rest, uoff + r.block.usize)
      case None => None
      case Some(rs) => Some([At(r, uoff)] + rs)
  }

  /** The records before the first empty one, packed end to end from `uoff`. */
  function UpToEmpty(rs: seq<Record>, uoff: nat): seq<Record> {
    if rs == [] || rs[0].block.usize == 0 then []
    else [At(rs[0], uoff)] + UpToEmpty(rs[1..], uoff + rs[0].block.usize)
  }

  /** Reading an index back gives the records up to the first empty block, and
      nothing after it. */
  lemma {:induction false} Reload(kind: Kind, rs: seq<Record>, uoff: nat)
    requires forall r | r in rs :: OfKind(r, kind) && Storable(r)
    ensures ParseAll(kind, WriteAll(rs), uoff) == Some(UpToEmpty(rs, uoff))
    decreases |rs|
  {
    hide WriteRecord, ReadRecord;
    if rs == [] {
      EndMarker(kind);
    } else {
      RecordRoundTrip(kind, rs[0], WriteAll(rs[1..]));
      Reload(kind, rs[1..], uoff + rs[0].block.usize);
    }
  }

  /** An index that has lost its end is not taken for a shorter one. */
  lemma {:induction false} CutShort(kind: Kind, rs: seq<Record>, n: nat, uoff: nat)
    requires forall r | r in rs :: OfKind(r, kind) && Storable(r) && r.block.usize != 0
    requires n < |WriteAll(rs)|
    ensures ParseAll(kind, WriteAll(rs)[..n], uoff) == None
    decreases |rs|
  {
    hide WriteRecord, ReadRecord;
    var all := WriteAll(rs);
    if rs == [] {
      NoRoom(kind, all[..n]);
    } else {
      var w, rest := WriteRecord(rs[0]), WriteAll(rs[1..]);
      if n < |w| {
        assert all[..n] == w[..n];
        RecordCutShort(kind, rs[0], n);
      } else {
        assert all[..n] == w + rest[..n - |w|];
        RecordRoundTrip(kind, rs[0], rest[..n - |w|]);
        CutShort(kind, rs[1..], n - |w|, uoff + rs[0].block.usize);
      }
    }
  }

  lemma NoRoom(kind: Kind, s: seq<byte>)
    requires |s| < 4
    ensures ReadRecord(kind, s) == EndOfFile
  {
  }

  lemma RecordCutShort(kind: Kind, r: Record, n: nat)
    requires OfKind(r, kind) && Storable(r) && r.block.usize != 0 && n < |WriteRecord(r)|
    ensures ReadRecord(kind, WriteRecord(r)[..n]) == EndOfFile
  {
    hide ToBE, FromBE, PackBits, PackFlags, Pow256, AsByte;
    Numbers();
    RoundTripBE(r.block.usize, 4);
    var s := WriteRecord(r)[..n];
    if 4 <= n {
      assert s[..4] == ToBE(r.block.usize, 4);
    }
    if 16 <= n && r.GzipBlock? {
      PackFlagsBack(r.bits, r.dict);
      assert 17 <= n ==> s[16..][0] == PackFlags(r.bits, r.dict);
    }
  }

  lemma EndMarker(kind: Kind)
    ensures ReadRecord(kind, ToBE(0, 4)) == EndOfIndex
  {
    hide ToBE, FromBE, Pow256;
    Numbers();
    RoundTripBE(0, 4);
    assert ToBE(0, 4)[..4] == ToBE(0, 4);
  }

  ghost predicate NoneEmpty(rs: seq<Record>) {
    forall r | r in rs :: r.block.usize != 0
  }

  /** So an index survives being saved exactly when its blocks lie end to end
      and none is empty. */
  lemma RoundTrip(kind: Kind, rs: seq<Record>)
    requires forall r | r in rs :: OfKind(r, kind) && Storable(r)
    ensures ParseAll(kind, WriteAll(rs), 0) == Some(rs) <==> Tiled(Plain(rs), 0) && NoneEmpty(rs)
  {
    Reload(kind, rs, 0);
    UpToEmptyAll(rs, 0);
  }

  lemma {:induction false} UpToEmptyAll(rs: seq<Record>, uoff: nat)
    ensures UpToEmpty(rs, uoff) == rs <==> Tiled(Plain(rs), uoff) && NoneEmpty(rs)
    decreases |rs|
  {
    hide NoneEmpty, Tiled;
    if rs == [] {
      NoneEmptyCons([]);
      NoneTiled(uoff);
    } else {
      var b, rest := rs[0], rs[1..];
      NoneEmptyCons(rs);
      TiledCons(Plain(rs), uoff);
      assert Plain(rs)[1..] == Plain(rest) && Plain(rs)[0] == b.block && rs == [b] + rest;
      if b.block.usize != 0 {
        UpToEmptyAll(rest, uoff + b.block.usize);
        assert UpToEmpty(rs, uoff) == [At(b, uoff)] + UpToEmpty(rest, uoff + b.block.usize);
        assert At(b, uoff) == b <==> b.block.uoff == uoff;
        assert UpToEmpty(rs, uoff)[0] == At(b, uoff) && UpToEmpty(rs, uoff)[1..] == UpToEmpty(rest, uoff + b.block.usize);
      }
    }
  }

  lemma NoneTiled(uoff: nat)
    ensures Tiled(Plain([]), uoff)
  {
  }

  lemma NoneEmptyCons(rs: seq<Record>)
    ensures NoneEmpty(rs) <==> rs == [] || (rs[0].block.usize != 0 && NoneEmpty(rs[1..]))
  {
    if rs != [] {
      assert rs == [rs[0]] + rs[1..];
    }
  }

  // ----- Reading and writing the file -----

  /** An open file: its bytes and the position in it. A read that finds too few
      bytes fails (`EOFException`). */
  class FileHandle {
    var data: seq<byte>
    var pos: nat

    constructor (data: seq<byte>)
      ensures this.data == data && pos == 0
    {
      this.data, pos := data, 0;
    }

    ghost function Rest(): seq<byte>
      requires pos <= |data|
      reads this
    {
      data[pos..]
    }

    method Read(n: nat) returns (ok: bool, buf: seq<byte>)
      requires pos <= |data|
      modifies this`pos
      ensures pos <= |data| && (ok <==> n <= |old(Rest())|)
      ensures ok ==> buf == old(Rest())[..n] && Rest() == old(Rest())[n..]
    {
      if |data| - pos < n {
        return false, [];
      }
      buf := data[pos..pos + n];
      pos := pos + n;
      ok := true;
    }

    method ReadBE(w: nat) returns (ok: bool, n: nat)
      requires pos <= |data|
      modifies this`pos
      ensures pos <= |data| && (ok <==> w <= |old(Rest())|)
      ensures ok ==> n == FromBE(old(Rest())[..w]) && Rest() == old(Rest())[w..]
    {
      var buf: seq<byte>;
      ok, buf := Read(w);
      n := FromBE(buf);
    }

    method Write(buf: seq<byte>)
      requires pos == |data|
      modifies this
      ensures data == old(data) + buf && pos == |data|
    {
      data := data + buf;
      pos := |data|;
    }
  }

  lemma PlainExtra(block: Block, s: seq<byte>)
    ensures ReadExtra(PlainKind, block, s) == ReadOk(PlainBlock(block), s)
  {
  }

  /** A file whose blocks are listed in an index. */
  class IndexedFile {
    const kind: Kind
    var mBlocks: seq<Record>

    constructor (kind: Kind, blocks: seq<Record>)
      ensures this.kind == kind && mBlocks == blocks
    {
      this.kind, mBlocks := kind, blocks;
    }

    method WriteIndex(fh: FileHandle)
      requires fh.pos == |fh.data|
      modifies fh
      ensures fh.data == old(fh.data) + WriteAll(mBlocks) && fh.pos == |fh.data|
    {
      var i := 0;
      while i < |mBlocks|
        invariant 0 <= i <= |mBlocks| && fh.pos == |fh.data|
        invariant fh.data + WriteAll(mBlocks[i..]) == old(fh.data) + WriteAll(mBlocks)
      {
        assert mBlocks[i..][1..] == mBlocks[i + 1..];
        assert fh.data + (WriteRecord(mBlocks[i]) + WriteAll(mBlocks[i + 1..])) == fh.data + WriteRecord(mBlocks[i]) + WriteAll(mBlocks[i + 1..]);
        fh.Write(WriteRecord(mBlocks[i]));
        i := i + 1;
      }
      fh.Write(ToBE(0, 4));
    }

    method ReadBlock(fh: FileHandle) returns (res: ReadResult)
      requires fh.pos <= |fh.data|
      modifies fh`pos
      ensures fh.pos <= |fh.data| && res == ReadRecord(kind, old(fh.Rest()))
      ensures res.ReadOk? ==> fh.Rest() == res.rest
    {
      hide FromBE, ReadExtra;
      ghost var s := fh.Rest();
      var ok, usize := fh.ReadBE(4);
      if !ok { return EndOfFile; }
      if usize == 0 { return EndOfIndex; }
      var csize, coff;
      ok, csize := fh.ReadBE(4);
      if !ok { return EndOfFile; }
      ok, coff := fh.ReadBE(8);
      if !ok { return EndOfFile; }
      assert s[4..][..4] == s[4..8] && s[4..][4..][..8] == s[8..16] && s[4..][4..][8..] == s[16..];
      res := ReadRest(fh, Block(usize, csize, 0, coff));
    }

    method ReadRest(fh: FileHandle, block: Block) returns (res: ReadResult)
      requires fh.pos <= |fh.data|
      modifies fh`pos
      ensures fh.pos <= |fh.data| && res == ReadExtra(kind, block, old(fh.Rest()))
      ensures res.ReadOk? ==> fh.Rest() == res.rest
    {
      hide ReadExtra;
      match kind
      case PlainKind =>
        PlainExtra(block, fh.Rest());
        return ReadOk(PlainBlock(block), fh.data[fh.pos..]);
      case Bzip2Kind => res := ReadBzip2(fh, block);
      case GzipKind => res := ReadGzip(fh, block);
    }

    method ReadBzip2(fh: FileHandle, block: Block) returns (res: ReadResult)
      requires fh.pos <= |fh.data|
      modifies fh`pos
      ensures fh.pos <= |fh.data| && res == ReadExtra(Bzip2Kind, block, old(fh.Rest()))
      ensures res.ReadOk? ==> fh.Rest() == res.rest
    {
      ghost var s := fh.Rest();
      var ok, packed := fh.Read(1);
      if !ok { return EndOfFile; }
      var level;
      ok, level := fh.Read(1);
      if !ok { return EndOfFile; }
      assert s[1..][1..] == s[2..];
      res := ReadOk(Bzip2Block(block, (packed[0] & 0x0f) as nat, (packed[0] >> 4) as nat, level[0]), fh.data[fh.pos..]);
    }

    method ReadGzip(fh: FileHandle, block: Block) returns (res: ReadResult)
      requires fh.pos <= |fh.data|
      modifies fh`pos
      ensures fh.pos <= |fh.data| && res == ReadExtra(GzipKind, block, old(fh.Rest()))
      ensures res.ReadOk? ==> fh.Rest() == res.rest
    {
      ghost var s := fh.Rest();
      var ok, flags := fh.Read(1);
      if !ok { return EndOfFile; }
      var bits := (flags[0] & BLOCK_BITS_MASK) as nat;
      if flags[0] & BLOCK_DICT_FLAG == 0 {
        return ReadOk(GzipBlock(block, bits, []), fh.data[fh.pos..]);
      }
      var dict;
      ok, dict := fh.Read(WINDOW_SIZE);
      if !ok { return EndOfFile; }
      assert s[1..][..WINDOW_SIZE] == s[1..1 + WINDOW_SIZE] && s[1..][WINDOW_SIZE..] == s[1 + WINDOW_SIZE..];
      res := ReadOk(GzipBlock(block, bits, dict), fh.data[fh.pos..]);
    }

    /** Adds the blocks of a saved index; fails if the file ends too soon. */
    method ReadIndex(fh: FileHandle) returns (ok: bool)
      requires fh.pos <= |fh.data|
      modifies this, fh`pos
      ensures var parsed := ParseAll(kind, old(fh.Rest()), 0);
              (ok <==> parsed.Some?) && (ok ==> mBlocks == old(mBlocks) + parsed.value)
    {
      hide ReadRecord;
      var uoff: nat := 0;
      ghost var done: seq<Record> := [];
      ghost var was := mBlocks;
      ghost var s := fh.Rest();
      ghost var all := ParseAll(kind, s, 0);
      assert all.Some? ==> [] + all.value == all.value;
      while true
        invariant fh.pos <= |fh.data| && mBlocks == was + done
        invariant var rest := ParseAll(kind, fh.Rest(), uoff);
                  ParseAll(kind, s, 0) == if rest.Some? then Some(done + rest.value) else None
        decreases |fh.data| - fh.pos
      {
        ghost var here := fh.Rest();
        var res := ReadBlock(fh);
        match res
        case EndOfIndex => return true;
        case EndOfFile => return false;
        case ReadOk(r, rest) =>
          mBlocks := mBlocks + [At(r, uoff)];
          ghost var more := ParseAll(kind, rest, uoff + r.block.usize);
          if more.Some? {
            assert done + ([At(r, uoff)] + more.value) == done + [At(r, uoff)] + more.value;
          }
          done := done + [At(r, uoff)];
          uoff := uoff + r.block.usize;
      }
    }
  }

  /** Saving an index and loading it again, end to end: what comes back is the
      blocks before the first empty one. */
  method SaveAndLoad(file: IndexedFile, again: IndexedFile) returns (ok: bool)
    requires again.kind == file.kind && again.mBlocks == []
    requires forall r | r in file.mBlocks :: OfKind(r, file.kind) && Storable(r)
    modifies again
    ensures ok && again.mBlocks == UpToEmpty(old(file.mBlocks), 0)
  {
    var fh := new FileHandle([]);
    file.WriteIndex(fh);
    assert [] + WriteAll(file.mBlocks) == WriteAll(file.mBlocks);
    var back := new FileHandle(fh.data);
    assert back.Rest() == fh.data;
    Reload(file.kind, file.mBlocks, 0);
    ok := again.ReadIndex(back);
  }
}
