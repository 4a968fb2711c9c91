/** Constants of the bzip2 container format. */
module Bzip2Format {
  import opened Bits

  const MAGIC: seq<byte> := [0x42, 0x5a, 0x68] // "BZh"
  const BLOCK_MAGIC: bv64 := 0x3141_5926_5359
  const EOS_MAGIC: bv64 := 0x1772_4538_5090
  const BLOCK_MAGIC_BYTES: nat := 6

  // The same two numbers as the bytes they occupy in a file.
  const BLOCK_BYTES: seq<byte> := [0x31, 0x41, 0x59, 0x26, 0x53, 0x59]
  const EOS_BYTES: seq<byte> := [0x17, 0x72, 0x45, 0x38, 0x50, 0x90]

  /** `n` bits of `out` from position `at` equal `n` bits of `src` from position `from`. */
  ghost predicate CopiesBits(out: seq<byte>, at: nat, src: seq<byte>, from: nat, n: nat) {
    && at + n <= 8 * |out|
    && from + n <= 8 * |src|
    && forall q: nat | at <= q < at + n :: BitAt(out, q) == BitAt(src, q - at + from)
  }
}

/** Cutting a bit range out of a bzip2 file and dressing it up as a file with
    a single block (`Bzip2File::createAlignedBlock`). */
module Bzip2Align {
  import opened Bits
  import opened Bzip2Format

  /** A positioned read. It may return fewer bytes than asked for, unless it is
      `full`; it returns none exactly when there are none to read. */
  method TryPRead(file: seq<byte>, off: nat, b: array<byte>, at: nat, size: nat, full: bool) returns (r: nat)
    requires at + size <= b.Length
    modifies b
    ensures r == 0 <==> |file| <= off || size == 0
    ensures full && off + size <= |file| ==> r == size
    ensures r <= size && (r > 0 ==> off + r <= |file|)
    ensures r > 0 ==> b[at..at + r] == file[off..off + r]
    ensures forall k | 0 <= k < b.Length && !(at <= k < at + r) :: b[k] == old(b[k])
  {
    if |file| <= off || size == 0 {
      return 0;
    }
    var least := if full && off + size <= |file| then size else 1;
    r :| least <= r <= size && off + r <= |file|;
    forall k | 0 <= k < r {
      b[at + k] := file[off + k];
    }
  }

  /** Moves bytes `from..to` left by `8 - bits` bits, in place. */
  method ShiftLeft(b: array<byte>, from: nat, to: nat, bits: nat)
    requires from <= to < b.Length && 0 < bits < 8
    modifies b
    ensures forall k | from <= k < to :: b[k] == Splice(old(b[k]), old(b[k + 1]), 8 - bits)
    ensures forall k | 0 <= k < b.Length && !(from <= k < to) :: b[k] == old(b[k])
  {
    hide Splice;
    var ip := from;
    while ip < to
      invariant from <= ip <= to
      invariant forall k | from <= k < ip :: b[k] == Splice(old(b[k]), old(b[k + 1]), 8 - bits)
      invariant forall k | 0 <= k < b.Length && !(from <= k < ip) :: b[k] == old(b[k])
    {
      b[ip] := Splice(b[ip], b[ip + 1], 8 - bits);
      ip := ip + 1;
    }
  }

  /** Where the bit `d` places after bit `q` lies. */
  lemma Advance(q: nat, d: nat)
    requires d <= 8
    ensures (q + d) / 8 == if q % 8 + d < 8 then q / 8 else q / 8 + 1
    ensures (q + d) % 8 == if q % 8 + d < 8 then q % 8 + d else q % 8 + d - 8
  {
  }

  /** After the shift, bit `k` of the range is bit `k + 8 - bits` of what was read. */
  lemma ShiftedBits(was: seq<byte>, now: seq<byte>, from: nat, to: nat, bits: nat)
    requires from <= to < |was| == |now| && 0 < bits < 8
    requires forall k | from <= k < to :: now[k] == Splice(was[k], was[k + 1], 8 - bits)
    ensures from < to ==> CopiesBits(now, 8 * from, was, 8 * from + 8 - bits, 8 * (to - from) + bits - 8)
  {
    hide Splice, Bit;
    forall q: nat | 8 * from <= q < 8 * to + bits - 8
      ensures BitAt(now, q) == BitAt(was, q + 8 - bits)
    {
      SpliceBit(was[q / 8], was[q / 8 + 1], 8 - bits, q % 8);
      Advance(q, 8 - bits);
    }
  }

  /** Writes the ten footer bytes so that they start `e` bits before byte `ip`. */
  method WriteFooter(b: array<byte>, ip: nat, e: nat, foot: seq<byte>)
    requires e < 8 && 0 < ip && ip + 10 <= b.Length && |foot| == 10
    modifies b
    ensures CopiesBits(b[..], 0, old(b[..]), 0, 8 * ip - e)
    ensures CopiesBits(b[..], 8 * ip - e, foot, 0, 80)
    ensures e == 0 ==> b[..ip] == old(b[..ip]) && b[ip..ip + 10] == foot
  {
    hide Splice, Patch, BitAt;
    ghost var was := b[..];
    if e > 0 {
      b[ip - 1] := Patch(b[ip - 1], foot[0], e);
    }
    ghost var mid := b[..];
    var ep := 0;
    while ep < 9
      invariant 0 <= ep <= 9
      invariant forall k | 0 <= k < ip :: b[k] == mid[k]
      invariant forall m | 0 <= m < ep :: b[ip + m] == Splice(foot[m], foot[m + 1], e)
    {
      b[ip + ep] := Splice(foot[ep], foot[ep + 1], e);
      ep := ep + 1;
    }
    b[ip + ep] := foot[ep] << e;
    if e == 0 {
      WholeBytes(foot, b[ip..ip + 10]);
    }
    FooterBits(was, b[..], ip, e, foot);
  }

  lemma WholeBytes(foot: seq<byte>, now: seq<byte>)
    requires |foot| == |now| == 10
    requires (forall m | 0 <= m < 9 :: now[m] == Splice(foot[m], foot[m + 1], 0)) && now[9] == foot[9] << 0
    ensures now == foot
  {
    hide Splice;
    forall m | 0 <= m < 9
      ensures now[m] == foot[m]
    {
      SpliceEnds(foot[m], foot[m + 1]);
    }
  }

  lemma FooterBits(was: seq<byte>, now: seq<byte>, ip: nat, e: nat, foot: seq<byte>)
    requires e < 8 && 0 < ip && ip + 10 <= |was| == |now| && |foot| == 10
    requires forall k | 0 <= k < ip - 1 :: now[k] == was[k]
    requires now[ip - 1] == if e > 0 then Patch(was[ip - 1], foot[0], e) else was[ip - 1]
    requires forall m | 0 <= m < 9 :: now[ip + m] == Splice(foot[m], foot[m + 1], e)
    requires now[ip + 9] == foot[9] << e
    ensures CopiesBits(now, 0, was, 0, 8 * ip - e)
    ensures CopiesBits(now, 8 * ip - e, foot, 0, 80)
  {
    hide Splice, Patch, Bit;
    forall q: nat | q < 8 * ip - e
      ensures BitAt(now, q) == BitAt(was, q)
    {
      if q / 8 == ip - 1 && e > 0 {
        PatchBit(was[ip - 1], foot[0], e, q % 8);
      }
    }
    forall q: nat | 8 * ip - e <= q < 8 * ip - e + 80
      ensures BitAt(now, q) == BitAt(foot, q - (8 * ip - e))
    {
      FooterBit(was, now, ip, e, foot, q);
    }
  }

  lemma FooterBit(was: seq<byte>, now: seq<byte>, ip: nat, e: nat, foot: seq<byte>, q: nat)
    requires e < 8 && 0 < ip && ip + 10 <= |was| == |now| && |foot| == 10
    requires 8 * ip - e <= q < 8 * ip - e + 80
    requires now[ip - 1] == if e > 0 then Patch(was[ip - 1], foot[0], e) else was[ip - 1]
    requires forall m | 0 <= m < 9 :: now[ip + m] == Splice(foot[m], foot[m + 1], e)
    requires now[ip + 9] == foot[9] << e
    ensures BitAt(now, q) == BitAt(foot, q - (8 * ip - e))
  {
    hide Splice, Patch, Bit;
    if q < 8 * ip {
      PatchBit(was[ip - 1], foot[0], e, q % 8);
      assert q / 8 == ip - 1;
    } else {
      var m := q / 8 - ip;
      var lo: byte := if m < 9 then foot[m + 1] else 0;
      assert now[ip + m] == Splice(foot[m], lo, e) by {
        if m == 9 {
          ZeroFill(foot[9], e);
        }
      }
      SpliceBit(foot[m], lo, e, q % 8);
      Advance(q - 8 * ip, e);
    }
  }

  lemma ZeroFill(x: byte, e: nat)
    requires e < 8
    ensures x << e == Splice(x, 0, e)
  {
    if e == 0 {} else if e == 1 {} else if e == 2 {} else if e == 3 {}
    else if e == 4 {} else if e == 5 {} else if e == 6 {} else {}
  }

  lemma CopyChain(a: seq<byte>, pa: nat, b: seq<byte>, pb: nat, c: seq<byte>, pc: nat, n: nat)
    requires CopiesBits(a, pa, b, pb, n) && CopiesBits(b, pb, c, pc, n)
    ensures CopiesBits(a, pa, c, pc, n)
  {
  }

  lemma CopyPart(a: seq<byte>, pa: nat, b: seq<byte>, pb: nat, n: nat, d: nat, m: nat)
    requires CopiesBits(a, pa, b, pb, n) && d + m <= n
    ensures CopiesBits(a, pa + d, b, pb + d, m)
  {
  }

  lemma CopyBytes(a: seq<byte>, pa: nat, b: seq<byte>, pb: nat, n: nat)
    requires pa + n <= |a| && pb + n <= |b| && a[pa..pa + n] == b[pb..pb + n]
    ensures CopiesBits(a, 8 * pa, b, 8 * pb, 8 * n)
  {
    forall q: nat | 8 * pa <= q < 8 * pa + 8 * n
      ensures BitAt(a, q) == BitAt(b, q - 8 * pa + 8 * pb)
    {
      var k := q / 8 - pa;
      assert a[pa + k] == a[pa..pa + n][k] == b[pb..pb + n][k];
    }
  }

  /** How many bits of the range a read of `r` bytes delivers. */
  function Kept(r: nat, bits: nat, endbits: nat): (n: int)
    requires bits < 8 && endbits < 8
  {
    8 * (if bits > 0 then r - 1 else r) + bits - endbits
  }

  /** Where the data kept ends: `e` bits before the end of what was read. */
  lemma EndOfData(r: nat, bits: nat, endbits: nat)
    requires bits < 8 && endbits < 8 && 0 < r
    ensures var n, e := Kept(r, bits, endbits), 8 * (if bits > 0 then 1 else 0) - bits + endbits;
            && n <= Delivered(r, bits)
            && 0 <= e < 16 && 4 <= 4 + r - e / 8 && 8 * (4 + r - e / 8) - e % 8 == 32 + n
  {
  }

  /** The shape of a one-block file holding `n` bits of `file` from bit `from`:
      header, data, end-of-stream magic, and the block's own checksum
      (bits 48 to 79 of the range) repeated as the stream checksum. */
  ghost predicate OneBlockFile(out: seq<byte>, level: byte, file: seq<byte>, from: nat, n: nat) {
    && CopiesBits(out, 0, MAGIC + [level], 0, 32)
    && CopiesBits(out, 32, file, from, n)
    && CopiesBits(out, 32 + n, EOS_BYTES, 0, 48)
    && (80 <= n ==> CopiesBits(out, 80 + n, file, from + 48, 32))
  }

  /** How many bits of the range, aligned, a read of `r` bytes gives. */
  function Delivered(r: nat, bits: nat): int {
    if bits > 0 then 8 * (r - 1) + bits else 8 * r
  }

  /** The bytes read, moved into place, are the first bits of the range. */
  lemma DataBits(file: seq<byte>, coff: nat, bits: nat, r: nat, got: seq<byte>, moved: seq<byte>)
    requires bits < 8 && (bits > 0 ==> 0 < coff) && r > 0
    requires 5 + r <= |got| == |moved|
    requires coff - (if bits > 0 then 1 else 0) + r <= |file|
    requires got[4..4 + r] == file[coff - (if bits > 0 then 1 else 0)..coff - (if bits > 0 then 1 else 0) + r]
    requires if bits > 0 then forall k | 4 <= k < 4 + r :: moved[k] == Splice(got[k], got[k + 1], 8 - bits) else moved == got
    ensures CopiesBits(moved, 32, file, 8 * coff - bits, Delivered(r, bits))
  {
    hide Splice, Patch, Bit, BitAt, CopiesBits;
    CopyBytes(got, 4, file, coff - (if bits > 0 then 1 else 0), r);
    if bits > 0 {
      ShiftedBits(got, moved, 4, 4 + r, bits);
      CopyPart(got, 32, file, 8 * coff - 8, 8 * r, 8 - bits, 8 * r + bits - 8);
      CopyChain(moved, 32, got, 40 - bits, file, 8 * coff - bits, 8 * r + bits - 8);
    }
  }

  /** Reads a range with its first bits at the front of byte 4: for bits taken
      from the byte before, that byte is read too and the rest moved up. */
  method ReadData(file: seq<byte>, b: array<byte>, ip: nat, coff: nat, bits: nat, size: nat, full: bool) returns (r: nat)
    requires ip == 4 && bits < 8 && (bits > 0 ==> 0 < coff) && 4 + size < b.Length
    modifies b
    ensures r <= size && (r == 0 <==> |file| <= coff - (if bits > 0 then 1 else 0) || size == 0)
    ensures full && coff - (if bits > 0 then 1 else 0) + size <= |file| ==> r == size
    ensures b[..4] == old(b[..4]) && forall k | 4 + r <= k < b.Length :: b[k] == old(b[k])
    ensures r > 0 ==> CopiesBits(b[..], 32, file, 8 * coff - bits, Delivered(r, bits))
  {
    hide Splice, CopiesBits, Delivered;
    r := TryPRead(file, coff - (if bits > 0 then 1 else 0), b, ip, size, full);
    ghost var got := b[..];
    if bits > 0 {
      ShiftLeft(b, ip, ip + r, bits);
    }
    if r > 0 {
      DataBits(file, coff, bits, r, got, b[..]);
    }
  }

  /** The four bytes where the checksum of a block is looked for. The buffer
      keeps its bytes when it is resized, and grows by zeros. */
  function Sum(buf: seq<byte>): (sum: seq<byte>)
    ensures |sum| == 4
  {
    seq(4, i requires 0 <= i < 4 => if 10 + i < |buf| then buf[10 + i] else 0)
  }

  /** The read finds nothing: an aligned range that ends where it starts, or one
      past the end of the file. */
  predicate NothingThere(size: nat, coff: nat, bits: nat, end: nat) {
    if bits == 0 then end <= coff || size <= coff else size < coff
  }

  /** Copies bits `8 * coff - bits` up to `8 * end - endbits` of the file into
      a buffer that held `was`, aligned, between a header and a footer. `ok` is
      false when the read finds nothing, which throws `EOFException`. Without
      data, the four old bytes where the checksum would be stand in for it, and
      the result is an empty file; a read that stops short of the range by more
      than it delivers even loses the end of the level. */
  method CreateAlignedBlock(file: seq<byte>, was: seq<byte>, level: byte, coff: nat, bits: nat, end: nat, endbits: nat, full: bool)
    returns (ok: bool, b: array<byte>, r: nat)
    requires bits < 8 && endbits < 8 && coff <= end && (bits > 0 ==> 0 < coff)
    ensures fresh(b)
    ensures ok <==> !NothingThere(|file|, coff, bits, end)
    ensures b.Length == 14 + (end - coff) + if bits > 0 then 1 else 0
    ensures ok ==> 0 < r <= end - coff + if bits > 0 then 1 else 0
    ensures ok && full && end <= |file| ==> r == end - coff + if bits > 0 then 1 else 0
    ensures var n := Kept(r, bits, endbits);
            ok && n < 0 ==> 0 <= 32 + n && CopiesBits(b[..], 0, MAGIC + [level], 0, 32 + n) && CopiesBits(b[..], 32 + n, EOS_BYTES, 0, 48)
    ensures ok && bits > 0 && Kept(r, bits, endbits) == 0 ==> b[..14] == MAGIC + [level] + EOS_BYTES + Sum(was)
    ensures ok && 0 <= Kept(r, bits, endbits) ==> OneBlockFile(b[..], level, file, 8 * coff - bits, Kept(r, bits, endbits))
  {
    hide Splice, Patch, CopiesBits, OneBlockFile, Kept, Sum, Delivered;
    // header
    var prev := if bits > 0 then 1 else 0;
    b := new byte[|MAGIC| + 1 + prev + (end - coff) + BLOCK_MAGIC_BYTES + 4](i => if 0 <= i < |was| then was[i] else 0);
    SumIs(was, b[..]);
    b[0], b[1], b[2], b[3] := MAGIC[0], MAGIC[1], MAGIC[2], level;

    // the range itself
    ghost var head, stale := b[..4], b[10..14];
    assert head == MAGIC + [level];
    var ip := 4;
    r := ReadData(file, b, ip, coff, bits, end - coff + prev, full);
    ok := r > 0;
    if !ok {
      return;
    }
    var fp := ip + r;
    ghost var moved := b[..];
    assert moved[0..4] == head && (r <= 6 ==> moved[10..14] == stale);

    // what is kept ends `ebitsp` bits before what was read
    var ebitsp := 8 * prev - bits + endbits;
    var ebits := ebitsp % 8;
    ip := fp - ebitsp / 8;
    if ebitsp >= 8 {
      b[ip] := 0;
    }
    ghost var cut := b[..];
    assert cut[..ip] == moved[..ip] && cut[ip + 1..] == moved[ip + 1..];

    // with a single block, the stream's checksum is that block's
    var crc := 4 + BLOCK_MAGIC_BYTES;
    var foot := EOS_BYTES + b[crc..crc + 4];
    EndOfData(r, bits, endbits);
    WriteFooter(b, ip, ebits, foot);
    Closed(file, was, level, coff, bits, endbits, r, ip, ebits, moved, cut, b[..], foot);
  }

  /** What stands in the buffer once the footer is written. Without the bits
      the range asks for, the footer starts on the level. */
  lemma Closed(file: seq<byte>, was: seq<byte>, level: byte, coff: nat, bits: nat, endbits: nat, r: nat, ip: nat, e: nat,
               moved: seq<byte>, cut: seq<byte>, out: seq<byte>, foot: seq<byte>)
    requires bits < 8 && endbits < 8 && bits <= 8 * coff && 0 < r && e < 8
    requires var n := Kept(r, bits, endbits); n <= Delivered(r, bits) && 8 * ip - e == 32 + n
    requires 14 <= |moved| == |cut| == |out| && 4 <= ip && ip + 10 <= |out| && |foot| == 10
    requires moved[0..4] == MAGIC + [level] && (r <= 6 ==> moved[10..14] == Sum(was))
    requires CopiesBits(moved, 32, file, 8 * coff - bits, Delivered(r, bits))
    requires cut[..ip] == moved[..ip] && cut[ip + 1..] == moved[ip + 1..] && foot == EOS_BYTES + cut[10..14]
    requires CopiesBits(out, 0, cut, 0, 8 * ip - e) && CopiesBits(out, 8 * ip - e, foot, 0, 80)
    requires e == 0 ==> out[..ip] == cut[..ip] && out[ip..ip + 10] == foot
    ensures var n := Kept(r, bits, endbits);
            && (bits > 0 && n == 0 ==> out[..14] == MAGIC + [level] + EOS_BYTES + Sum(was))
            && (0 <= n ==> OneBlockFile(out, level, file, 8 * coff - bits, n))
            && (n < 0 ==> 0 <= 32 + n && CopiesBits(out, 0, MAGIC + [level], 0, 32 + n) && CopiesBits(out, 32 + n, EOS_BYTES, 0, 48))
  {
    hide CopiesBits, OneBlockFile, Kept, Sum, Delivered;
    var n := Kept(r, bits, endbits);
    if bits > 0 && n == 0 {
      NoData(r, bits, endbits);
      Emptied(moved, cut, out, level, foot);
    }
    if 0 <= n {
      CopyPart(moved, 32, file, 8 * coff - bits, Delivered(r, bits), 0, n);
      Assembled(file, level, 8 * coff - bits, n, ip, moved, cut, out, foot);
    } else {
      CopyBytes(cut, 0, MAGIC + [level], 0, 4);
      CopyPart(cut, 0, MAGIC + [level], 0, 32, 0, 32 + n);
      CopyChain(out, 0, cut, 0, MAGIC + [level], 0, 32 + n);
      CopyBytes(foot, 0, EOS_BYTES, 0, 6);
      CopyPart(out, 32 + n, foot, 0, 80, 0, 48);
      CopyChain(out, 32 + n, foot, 0, EOS_BYTES, 0, 48);
    }
  }

  lemma NoData(r: nat, bits: nat, endbits: nat)
    requires 0 < bits < 8 && endbits < 8 && 0 < r && Kept(r, bits, endbits) == 0
    ensures r == 1 && bits == endbits
  {
  }

  lemma Emptied(moved: seq<byte>, cut: seq<byte>, out: seq<byte>, level: byte, foot: seq<byte>)
    requires 14 <= |moved| == |cut| == |out| && |foot| == 10
    requires moved[0..4] == MAGIC + [level] && cut[..4] == moved[..4] && cut[5..] == moved[5..]
    requires foot == EOS_BYTES + cut[10..14] && out[..4] == cut[..4] && out[4..14] == foot
    ensures out[..14] == MAGIC + [level] + EOS_BYTES + moved[10..14]
  {
    forall k | 10 <= k < 14
      ensures cut[k] == moved[k]
    {
      assert cut[5..][k - 5] == moved[5..][k - 5];
    }
    assert out[..14] == out[..4] + out[4..14];
  }

  lemma SumIs(was: seq<byte>, buf: seq<byte>)
    requires 14 <= |buf| && forall i | 0 <= i < |buf| :: buf[i] == if i < |was| then was[i] else 0
    ensures buf[10..14] == Sum(was)
  {
  }

  lemma Assembled(file: seq<byte>, level: byte, from: nat, n: nat, ip: nat,
                  moved: seq<byte>, cut: seq<byte>, out: seq<byte>, foot: seq<byte>)
    requires 14 <= |moved| == |cut| == |out|
    requires moved[0..4] == MAGIC + [level]
    requires CopiesBits(moved, 32, file, from, n)
    requires 4 <= ip <= |out| && 32 + n <= 8 * ip && cut[..ip] == moved[..ip]
    requires foot == EOS_BYTES + cut[10..14]
    requires CopiesBits(out, 0, cut, 0, 32 + n)
    requires CopiesBits(out, 32 + n, foot, 0, 80)
    ensures OneBlockFile(out, level, file, from, n)
  {
    hide Splice, Patch, Bit, BitAt, CopiesBits;
    CopyBytes(cut, 0, moved, 0, ip);
    CopyPart(cut, 0, moved, 0, 8 * ip, 0, 32 + n);
    CopyChain(out, 0, cut, 0, moved, 0, 32 + n);
    // header
    CopyBytes(moved, 0, MAGIC + [level], 0, 4);
    CopyPart(out, 0, moved, 0, 32 + n, 0, 32);
    CopyChain(out, 0, moved, 0, MAGIC + [level], 0, 32);
    // data
    CopyPart(out, 0, moved, 0, 32 + n, 32, n);
    CopyChain(out, 32, moved, 32, file, from, n);
    // footer
    CopyBytes(foot, 0, EOS_BYTES, 0, 6);
    CopyPart(out, 32 + n, foot, 0, 80, 0, 48);
    CopyChain(out, 32 + n, foot, 0, EOS_BYTES, 0, 48);
    if 80 <= n {
      ChecksumBits(file, from, n, cut, out, foot);
    }
  }

  /** The checksum field is copied before the footer can overwrite any of it. */
  lemma ChecksumBits(file: seq<byte>, from: nat, n: nat, cut: seq<byte>, out: seq<byte>, foot: seq<byte>)
    requires 80 <= n && 14 <= |cut| == |out|
    requires CopiesBits(out, 32, file, from, n)
    requires foot == EOS_BYTES + cut[10..14]
    requires CopiesBits(out, 0, cut, 0, 32 + n)
    requires CopiesBits(out, 32 + n, foot, 0, 80)
    ensures CopiesBits(out, 80 + n, file, from + 48, 32)
  {
    hide Splice, Patch, Bit, BitAt;
    CopyBytes(foot, 6, cut, 10, 4);
    CopyPart(out, 32 + n, foot, 0, 80, 48, 32);
    CopyChain(out, 80 + n, foot, 48, cut, 80, 32);
    assert CopiesBits(cut, 80, out, 80, 32);
    CopyChain(out, 80 + n, cut, 80, out, 80, 32);
    CopyPart(out, 32, file, from, n, 48, 32);
    CopyChain(out, 80 + n, out, 80, file, from + 48, 32);
  }
}
