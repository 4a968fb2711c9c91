/** Bytes, and the bits inside them, most significant first: the order in
    which bzip2 packs its stream. */
module Bits {
  type byte = bv8

  /** Bit `k` of a byte, where bit 0 is the most significant. */
  predicate Bit(b: byte, k: nat)
    requires k < 8
  {
    if k == 0 then b & 0x80 != 0
    else if k == 1 then b & 0x40 != 0
    else if k == 2 then b & 0x20 != 0
    else if k == 3 then b & 0x10 != 0
    else if k == 4 then b & 0x08 != 0
    else if k == 5 then b & 0x04 != 0
    else if k == 6 then b & 0x02 != 0
    else b & 0x01 != 0
  }

  /** Bit `q` of a byte sequence. */
  predicate BitAt(s: seq<byte>, q: nat)
    requires q < 8 * |s|
  {
    Bit(s[q / 8], q % 8)
  }

  /** The byte found `s` bits into the pair `hi`, `lo`. */
  function Splice(hi: byte, lo: byte, s: nat): byte
    requires s <= 8
  {
    var k := s as bv4;
    (hi << k) | (lo >> (8 - k))
  }

  lemma SpliceEnds(hi: byte, lo: byte)
    ensures Splice(hi, lo, 0) == hi && Splice(hi, lo, 8) == lo
  {
  }

  /** The top `8 - e` bits of `x`, then the top `e` bits of `y`. */
  function Patch(x: byte, y: byte, e: nat): byte
    requires e <= 8
  {
    Splice(x >> e, y, e)
  }

  /** Splicing reads eight consecutive bits of the pair. */
  lemma SpliceBit(hi: byte, lo: byte, s: nat, k: nat)
    requires s <= 8 && k < 8
    ensures Bit(Splice(hi, lo, s), k) == if k + s < 8 then Bit(hi, k + s) else Bit(lo, k + s - 8)
  {
    match s
    case 0 =>
    case 1 =>
    case 2 =>
    case 3 =>
    case 4 =>
    case 5 =>
    case 6 =>
    case 7 =>
    case 8 =>
  }

  lemma ShrBit(x: byte, e: nat, k: nat)
    requires e <= 8 && k < 8
    ensures Bit(x >> e, k) == (e <= k && Bit(x, k - e))
  {
    match e
    case 0 =>
    case 1 =>
    case 2 =>
    case 3 =>
    case 4 =>
    case 5 =>
    case 6 =>
    case 7 =>
    case 8 =>
  }

  lemma PatchBit(x: byte, y: byte, e: nat, k: nat)
    requires e <= 8 && k < 8
    ensures Bit(Patch(x, y, e), k) == if k + e < 8 then Bit(x, k) else Bit(y, k + e - 8)
  {
    hide Splice, Bit;
    SpliceBit(x >> e, y, e, k);
    if k + e < 8 {
      ShrBit(x, e, k + e);
    }
  }

  /** A byte is determined by its bits. */
  lemma SameBits(a: byte, b: byte)
    requires forall k: nat | k < 8 :: Bit(a, k) == Bit(b, k)
    ensures a == b
  {
    assert Bit(a, 0) == Bit(b, 0);
    assert Bit(a, 1) == Bit(b, 1);
    assert Bit(a, 2) == Bit(b, 2);
    assert Bit(a, 3) == Bit(b, 3);
    assert Bit(a, 4) == Bit(b, 4);
    assert Bit(a, 5) == Bit(b, 5);
    assert Bit(a, 6) == Bit(b, 6);
    assert Bit(a, 7) == Bit(b, 7);
  }

  /** The byte starting at bit `q` of `s`, for any alignment. */
  function ByteAt(s: seq<byte>, q: nat): byte
    requires q + 8 <= 8 * |s|
  {
    Splice(s[q / 8], if q % 8 == 0 then 0 else s[q / 8 + 1], q % 8)
  }

  lemma ByteAtBit(s: seq<byte>, q: nat, k: nat)
    requires q + 8 <= 8 * |s| && k < 8
    ensures Bit(ByteAt(s, q), k) == BitAt(s, q + k)
  {
    hide Splice, Bit;
    SpliceBit(s[q / 8], if q % 8 == 0 then 0 else s[q / 8 + 1], q % 8, k);
    if q % 8 + k < 8 {
      assert (q + k) / 8 == q / 8 && (q + k) % 8 == q % 8 + k;
    } else {
      assert (q + k) / 8 == q / 8 + 1 && (q + k) % 8 == q % 8 + k - 8;
    }
  }
}
