/** Between the end of a bzip2 stream and the one that follows it, nothing looks
    like a boundary, even to a scan that does not know the byte before. */
module Bzip2Gap {
  import opened Bits
  import opened Bzip2Format
  import opened Bzip2Scan
  import opened Bzip2Seams
  import opened Wrappers

  // ----- The bytes of a shifted magic number -----

  /** The `j`th full byte of a magic number whose first `b` bits are in the byte before. */
  function Nth(magic: seq<byte>, j: nat, b: nat): byte
    requires |magic| == 6 && j < 5 && b < 8
  {
    Splice(magic[j], magic[j + 1], b)
  }

  lemma Nth0()
    ensures Nth(BLOCK_BYTES, 0, 0) == 0x31 && Nth(BLOCK_BYTES, 0, 1) == 0x62
    ensures Nth(BLOCK_BYTES, 0, 2) == 0xc5 && Nth(BLOCK_BYTES, 0, 3) == 0x8a
    ensures Nth(BLOCK_BYTES, 0, 4) == 0x14 && Nth(BLOCK_BYTES, 0, 5) == 0x28
    ensures Nth(BLOCK_BYTES, 0, 6) == 0x50 && Nth(BLOCK_BYTES, 0, 7) == 0xa0
    ensures Nth(EOS_BYTES, 0, 0) == 0x17 && Nth(EOS_BYTES, 0, 1) == 0x2e
    ensures Nth(EOS_BYTES, 0, 2) == 0x5d && Nth(EOS_BYTES, 0, 3) == 0xbb
    ensures Nth(EOS_BYTES, 0, 4) == 0x77 && Nth(EOS_BYTES, 0, 5) == 0xee
    ensures Nth(EOS_BYTES, 0, 6) == 0xdc && Nth(EOS_BYTES, 0, 7) == 0xb9
  {
  }

  lemma Nth1()
    ensures Nth(BLOCK_BYTES, 1, 0) == 0x41 && Nth(BLOCK_BYTES, 1, 1) == 0x82
    ensures Nth(BLOCK_BYTES, 1, 2) == 0x05 && Nth(BLOCK_BYTES, 1, 3) == 0x0a
    ensures Nth(BLOCK_BYTES, 1, 4) == 0x15 && Nth(BLOCK_BYTES, 1, 5) == 0x2b
    ensures Nth(BLOCK_BYTES, 1, 6) == 0x56 && Nth(BLOCK_BYTES, 1, 7) == 0xac
    ensures Nth(EOS_BYTES, 1, 0) == 0x72 && Nth(EOS_BYTES, 1, 1) == 0xe4
    ensures Nth(EOS_BYTES, 1, 2) == 0xc9 && Nth(EOS_BYTES, 1, 3) == 0x92
    ensures Nth(EOS_BYTES, 1, 4) == 0x24 && Nth(EOS_BYTES, 1, 5) == 0x48
    ensures Nth(EOS_BYTES, 1, 6) == 0x91 && Nth(EOS_BYTES, 1, 7) == 0x22
  {
  }

  lemma Nth2()
    ensures Nth(BLOCK_BYTES, 2, 0) == 0x59 && Nth(BLOCK_BYTES, 2, 1) == 0xb2
    ensures Nth(BLOCK_BYTES, 2, 2) == 0x64 && Nth(BLOCK_BYTES, 2, 3) == 0xc9
    ensures Nth(BLOCK_BYTES, 2, 4) == 0x92 && Nth(BLOCK_BYTES, 2, 5) == 0x24
    ensures Nth(BLOCK_BYTES, 2, 6) == 0x49 && Nth(BLOCK_BYTES, 2, 7) == 0x93
    ensures Nth(EOS_BYTES, 2, 0) == 0x45 && Nth(EOS_BYTES, 2, 1) == 0x8a
    ensures Nth(EOS_BYTES, 2, 2) == 0x14 && Nth(EOS_BYTES, 2, 3) == 0x29
    ensures Nth(EOS_BYTES, 2, 4) == 0x53 && Nth(EOS_BYTES, 2, 5) == 0xa7
    ensures Nth(EOS_BYTES, 2, 6) == 0x4e && Nth(EOS_BYTES, 2, 7) == 0x9c
  {
  }

  lemma Nth3()
    ensures Nth(BLOCK_BYTES, 3, 0) == 0x26 && Nth(BLOCK_BYTES, 3, 1) == 0x4c
    ensures Nth(BLOCK_BYTES, 3, 2) == 0x99 && Nth(BLOCK_BYTES, 3, 3) == 0x32
    ensures Nth(BLOCK_BYTES, 3, 4) == 0x65 && Nth(BLOCK_BYTES, 3, 5) == 0xca
    ensures Nth(BLOCK_BYTES, 3, 6) == 0x94 && Nth(BLOCK_BYTES, 3, 7) == 0x29
    ensures Nth(EOS_BYTES, 3, 0) == 0x38 && Nth(EOS_BYTES, 3, 1) == 0x70
    ensures Nth(EOS_BYTES, 3, 2) == 0xe1 && Nth(EOS_BYTES, 3, 3) == 0xc2
    ensures Nth(EOS_BYTES, 3, 4) == 0x85 && Nth(EOS_BYTES, 3, 5) == 0x0a
    ensures Nth(EOS_BYTES, 3, 6) == 0x14 && Nth(EOS_BYTES, 3, 7) == 0x28
  {
  }

  lemma Nth4()
    ensures Nth(BLOCK_BYTES, 4, 0) == 0x53 && Nth(BLOCK_BYTES, 4, 1) == 0xa6
    ensures Nth(BLOCK_BYTES, 4, 2) == 0x4d && Nth(BLOCK_BYTES, 4, 3) == 0x9a
    ensures Nth(BLOCK_BYTES, 4, 4) == 0x35 && Nth(BLOCK_BYTES, 4, 5) == 0x6b
    ensures Nth(BLOCK_BYTES, 4, 6) == 0xd6 && Nth(BLOCK_BYTES, 4, 7) == 0xac
    ensures Nth(EOS_BYTES, 4, 0) == 0x50 && Nth(EOS_BYTES, 4, 1) == 0xa1
    ensures Nth(EOS_BYTES, 4, 2) == 0x42 && Nth(EOS_BYTES, 4, 3) == 0x84
    ensures Nth(EOS_BYTES, 4, 4) == 0x09 && Nth(EOS_BYTES, 4, 5) == 0x12
    ensures Nth(EOS_BYTES, 4, 6) == 0x24 && Nth(EOS_BYTES, 4, 7) == 0x48
  {
  }

  lemma Inside(hi: byte, mid: byte, lo: byte, b: nat, m0: byte, m1: byte)
    requires b < 8 && Splice(hi, mid, 8 - b) == m0 && Splice(mid, lo, 8 - b) == m1
    ensures mid == Splice(m0, m1, b)
  {
    hide Splice, Bit;
    var x := Splice(m0, m1, b);
    forall k: nat | k < 8
      ensures Bit(mid, k) == Bit(x, k)
    {
      SpliceBit(m0, m1, b, k);
      if k + b < 8 {
        SpliceBit(hi, mid, 8 - b, k + b);
      } else {
        SpliceBit(mid, lo, 8 - b, k + b - 8);
      }
    }
    SameBits(mid, x);
  }

  /** Bytes 0 to 5 of `w` have bits `b` to 47 of a magic number. */
  predicate Tail(w: seq<byte>, magic: seq<byte>, b: nat)
    requires |w| == WORD && |magic| == 6 && b < 8
  {
    && w[0] == Nth(magic, 0, b) && w[1] == Nth(magic, 1, b) && w[2] == Nth(magic, 2, b)
    && w[3] == Nth(magic, 3, b) && w[4] == Nth(magic, 4, b) && Splice(w[4], w[5], 8 - b) == magic[5]
  }

  /** A match shows all but the bits of the byte before. */
  lemma MatchTail(u: byte, s: seq<byte>, b: nat, magic: seq<byte>)
    requires |s| == WORD && b < 8 && |magic| == 6 && Matches(u, s, b, magic)
    ensures Tail(s, magic, b)
  {
    hide Splice;
    Inside(u, s[0], s[1], b, magic[0], magic[1]);
    Inside(s[0], s[1], s[2], b, magic[1], magic[2]);
    Inside(s[1], s[2], s[3], b, magic[2], magic[3]);
    Inside(s[2], s[3], s[4], b, magic[3], magic[4]);
    Inside(s[3], s[4], s[5], b, magic[4], magic[5]);
  }

  // ----- The gap, byte by byte -----

  /** The 22 bytes from the first full one of an end of stream on: its checksum
      is followed by zeros to the end of a byte, "BZh", a level, and a magic number. */
  predicate Gap(w: seq<byte>, eb: nat) {
    && |w| == 22 && eb < 8 && Tail(w[..8], EOS_BYTES, eb) && Splice(w[9], 0, 8 - eb) == 0
    && w[10] == 0x42 && w[11] == 0x5a && w[12] == 0x68 && 0x31 <= w[13] <= 0x39 && (w[14] == 0x31 || w[14] == 0x17)
  }

  lemma Clash1(w: seq<byte>, eb: nat, magic: seq<byte>, b: nat)
    requires Gap(w, eb) && b < 8 && (magic == BLOCK_BYTES || magic == EOS_BYTES)
    ensures !Tail(w[1..9], magic, b)
  {
    hide Nth, Splice;
    Nth0();
    Nth1();
  }

  lemma Clash2(w: seq<byte>, eb: nat, magic: seq<byte>, b: nat)
    requires Gap(w, eb) && b < 8 && (magic == BLOCK_BYTES || magic == EOS_BYTES)
    ensures !Tail(w[2..10], magic, b)
  {
    hide Nth, Splice;
    Nth0();
    Nth1();
    Nth2();
    Nth3();
  }

  lemma Clash3(w: seq<byte>, eb: nat, magic: seq<byte>, b: nat)
    requires Gap(w, eb) && b < 8 && (magic == BLOCK_BYTES || magic == EOS_BYTES)
    ensures !Tail(w[3..11], magic, b)
  {
    hide Nth, Splice;
    Nth0();
    Nth1();
    Nth3();
    Nth4();
  }

  lemma Clash4(w: seq<byte>, eb: nat, magic: seq<byte>, b: nat)
    requires Gap(w, eb) && b < 8 && (magic == BLOCK_BYTES || magic == EOS_BYTES)
    ensures !Tail(w[4..12], magic, b)
  {
    hide Nth, Splice;
    SixthByte(w[4], w[5], eb);
    Nth0();
    Nth1();
    Nth4();
  }

  /** What is known of the byte in which an end of stream ends. */
  lemma SixthByte(hi: byte, x: byte, eb: nat)
    requires eb < 8 && Splice(hi, x, 8 - eb) == EOS_BYTES[5]
    ensures eb == 0 ==> x == 0x90
    ensures eb == 1 ==> x == 0x20 || x == 0x21
    ensures eb == 2 ==> 0x40 <= x < 0x44
    ensures eb == 3 ==> 0x80 <= x < 0x88
    ensures eb == 4 ==> x < 0x10
    ensures eb == 5 ==> x < 0x20
    ensures eb == 6 ==> x < 0x40
    ensures eb == 7 ==> x < 0x80
  {
    if eb == 0 {} else if eb == 1 {} else if eb == 2 {} else if eb == 3 {}
    else if eb == 4 {} else if eb == 5 {} else if eb == 6 {} else {}
  }

  lemma PaddedByte(x: byte, eb: nat)
    requires eb < 8 && Splice(x, 0, 8 - eb) == 0
    ensures eb == 5 ==> x & 0x1f == 0
    ensures eb == 6 ==> x & 0x3f == 0
    ensures eb == 7 ==> x & 0x7f == 0
  {
    if eb == 5 {} else if eb == 6 {} else {}
  }

  lemma Clash5(w: seq<byte>, eb: nat, magic: seq<byte>, b: nat)
    requires Gap(w, eb) && b < 8 && (magic == BLOCK_BYTES || magic == EOS_BYTES)
    ensures !Tail(w[5..13], magic, b)
  {
    hide Nth, Splice;
    SixthByte(w[4], w[5], eb);
    PaddedByte(w[9], eb);
    Nth0();
    Nth4();
  }

  lemma Clash6(w: seq<byte>, eb: nat, magic: seq<byte>, b: nat)
    requires Gap(w, eb) && b < 8 && (magic == BLOCK_BYTES || magic == EOS_BYTES)
    ensures !Tail(w[6..14], magic, b)
  {
    hide Nth, Splice;
    Nth4();
    assert Splice(0x42, 0x5a, 6) != 0x90 by {
      SpliceThere();
    }
  }

  lemma SpliceThere()
    ensures Splice(0x42, 0x5a, 6) == 0x96
  {
  }

  lemma Clash7To9(w: seq<byte>, eb: nat, d: nat, magic: seq<byte>, b: nat)
    requires Gap(w, eb) && b < 8 && (magic == BLOCK_BYTES || magic == EOS_BYTES) && 7 <= d <= 9
    ensures !Tail(w[d..d + 8], magic, b)
  {
    hide Nth, Splice;
    Nth1();
    Nth2();
    Nth3();
  }

  lemma Clash10To13(w: seq<byte>, eb: nat, d: nat, magic: seq<byte>, b: nat)
    requires Gap(w, eb) && b < 8 && (magic == BLOCK_BYTES || magic == EOS_BYTES) && 10 <= d <= 13
    ensures !Tail(w[d..d + 8], magic, b)
  {
    hide Nth, Splice;
    Nth0();
    Nth1();
  }

  lemma NoClash(w: seq<byte>, eb: nat, d: nat, magic: seq<byte>, b: nat)
    requires Gap(w, eb) && b < 8 && (magic == BLOCK_BYTES || magic == EOS_BYTES) && 0 < d <= 13
    ensures !Tail(w[d..d + 8], magic, b)
  {
    hide Gap, Tail;
    if d == 1 {
      Clash1(w, eb, magic, b);
    } else if d == 2 {
      Clash2(w, eb, magic, b);
    } else if d == 3 {
      Clash3(w, eb, magic, b);
    } else if d == 4 {
      Clash4(w, eb, magic, b);
    } else if d == 5 {
      Clash5(w, eb, magic, b);
    } else if d == 6 {
      Clash6(w, eb, magic, b);
    } else if d <= 9 {
      Clash7To9(w, eb, d, magic, b);
    } else {
      Clash10To13(w, eb, d, magic, b);
    }
  }

  // ----- The end of a stream and the next -----

  predicate Digit(level: byte) {
    0x31 <= level <= 0x39
  }

  ghost predicate TrueEOS(file: seq<byte>, e: Boundary) {
    e.magic == EOS_MAGIC && e.bits < 8 && 0 < e.coff && MagicAt(file, 8 * e.coff - e.bits, EOS_MAGIC)
  }

  /** How the stream after an end of stream at `e` begins: behind the checksum,
      zeros to the end of a byte, "BZh" and its level, at `t` its first magic number. */
  ghost predicate StreamFollows(file: seq<byte>, e: Boundary, t: Boundary) {
    && IsMagic(t.magic) && t.bits == 0 && t.coff == e.coff + AFTER_EOS + 1 && t.coff + WORD <= |file|
    && MagicAt(file, 8 * t.coff, t.magic)
    && e.bits < 8 && Splice(file[e.coff + 9], 0, 8 - e.bits) == 0
    && file[e.coff + 10..e.coff + 13] == MAGIC && t.level == file[e.coff + AFTER_EOS] && Digit(t.level)
  }

  /** Nothing between them looks like a boundary, whatever byte is taken to come before. */
  lemma GapQuiet(file: seq<byte>, e: Boundary, t: Boundary, b: Boundary)
    requires TrueEOS(file, e) && StreamFollows(file, e, t) && SeenAs(file, b) && e.coff < b.coff
    ensures t.coff <= b.coff
  {
    hide Splice, Look, Matches, Gap, Tail;
    if b.coff < t.coff {
      var w, d := file[e.coff..e.coff + 22], b.coff - e.coff;
      GapBytes(file, e, t);
      var u :| Spots(file, b, u);
      MatchTail(u, file[b.coff..b.coff + WORD], b.bits, BytesOf(b.magic));
      Within(file, e.coff, d);
      NoClash(w, e.bits, d, BytesOf(b.magic), b.bits);
    }
  }

  lemma GapBytes(file: seq<byte>, e: Boundary, t: Boundary)
    requires TrueEOS(file, e) && StreamFollows(file, e, t)
    ensures Gap(file[e.coff..e.coff + 22], e.bits)
  {
    hide Splice, Matches, Tail, Nth;
    var w, p := file[e.coff..e.coff + 22], e.coff;
    MagicTail(file, e);
    MagicTail(file, t);
    Within(file, p, 0);
    assert w[..8] == w[0..8];
    SameBytes(file, p);
    StartsWith(file[t.coff..t.coff + WORD], BytesOf(t.magic));
  }

  lemma Within(file: seq<byte>, p: nat, d: nat)
    requires p + 22 <= |file| && d <= 14
    ensures file[p..p + 22][d..d + 8] == file[p + d..p + d + WORD]
  {
    var a, b := file[p..p + 22][d..d + 8], file[p + d..p + d + WORD];
    assert |a| == |b| && forall i | 0 <= i < |b| :: a[i] == file[p + d + i] == b[i];
  }

  lemma MagicTail(file: seq<byte>, b: Boundary)
    requires IsMagic(b.magic) && b.bits < 8 && 0 < b.coff && b.coff + WORD <= |file| && MagicAt(file, 8 * b.coff - b.bits, b.magic)
    ensures Tail(file[b.coff..b.coff + WORD], BytesOf(b.magic), b.bits)
  {
    hide MagicAt, Matches, Tail;
    MagicBytes(file, b.coff, b.bits, file[b.coff - 1], b.magic);
    MatchTail(file[b.coff - 1], file[b.coff..b.coff + WORD], b.bits, BytesOf(b.magic));
  }

  lemma SameBytes(file: seq<byte>, p: nat)
    requires p + 22 <= |file| && file[p + 10..p + 13] == MAGIC
    ensures file[p + 10] == 0x42 && file[p + 11] == 0x5a && file[p + 12] == 0x68
  {
    assert file[p + 10..p + 13][0] == 0x42 && file[p + 10..p + 13][1] == 0x5a && file[p + 10..p + 13][2] == 0x68;
  }

  lemma StartsWith(s: seq<byte>, magic: seq<byte>)
    requires |s| == WORD && |magic| == 6 && Tail(s, magic, 0)
    ensures s[0] == magic[0]
  {
    SpliceEnds(magic[0], magic[1]);
  }
}
