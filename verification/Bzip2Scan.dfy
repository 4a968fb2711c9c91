/** Finding where bzip2 blocks may start, a byte at a time
    (`Bzip2File::findBlockBoundaryCandidates`). */
module Bzip2Scan {
  import opened Bits
  import opened Bzip2Format
  import opened Wrappers

  const CHUNK_SIZE: nat := 4096
  const WORD: nat := 8 // sizeof(uint64_t)
  const PER_CHUNK: nat := CHUNK_SIZE - WORD // bytes tested in a full chunk

  datatype Boundary = Boundary(magic: bv64, level: byte, coff: nat, bits: nat)

  function BytesOf(magic: bv64): (m: seq<byte>)
    requires magic == BLOCK_MAGIC || magic == EOS_MAGIC
    ensures |m| == BLOCK_MAGIC_BYTES
  {
    if magic == BLOCK_MAGIC then BLOCK_BYTES else EOS_BYTES
  }

  // ----- The first full byte of a shifted magic number -----

  /** The byte that follows the first `b` bits of a magic number, as a table index. */
  function FirstFull(magic: seq<byte>, b: nat): (x: nat)
    requires |magic| == 6 && b < 8
    ensures x < 256
  {
    Splice(magic[0], magic[1], b) as nat
  }

  lemma FirstBytes()
    ensures FirstFull(BLOCK_BYTES, 0) == 0x31 && FirstFull(BLOCK_BYTES, 1) == 0x62
    ensures FirstFull(BLOCK_BYTES, 2) == 0xc5 && FirstFull(BLOCK_BYTES, 3) == 0x8a
    ensures FirstFull(BLOCK_BYTES, 4) == 0x14 && FirstFull(BLOCK_BYTES, 5) == 0x28
    ensures FirstFull(BLOCK_BYTES, 6) == 0x50 && FirstFull(BLOCK_BYTES, 7) == 0xa0
    ensures FirstFull(EOS_BYTES, 0) == 0x17 && FirstFull(EOS_BYTES, 1) == 0x2e
    ensures FirstFull(EOS_BYTES, 2) == 0x5d && FirstFull(EOS_BYTES, 3) == 0xbb
    ensures FirstFull(EOS_BYTES, 4) == 0x77 && FirstFull(EOS_BYTES, 5) == 0xee
    ensures FirstFull(EOS_BYTES, 6) == 0xdc && FirstFull(EOS_BYTES, 7) == 0xb9
  {
  }

  /** No first byte appears twice in the shifted magics, so one table serves both. */
  lemma FirstBytesDistinct(m1: bv64, b1: nat, m2: bv64, b2: nat)
    requires m1 == BLOCK_MAGIC || m1 == EOS_MAGIC
    requires m2 == BLOCK_MAGIC || m2 == EOS_MAGIC
    requires b1 < 8 && b2 < 8 && FirstFull(BytesOf(m1), b1) == FirstFull(BytesOf(m2), b2)
    ensures m1 == m2 && b1 == b2
  {
    hide FirstFull;
    FirstBytes();
  }

  /** Entry `x`, once the magics shifted by less than `n` bits are entered. */
  ghost predicate Entry(t: seq<int>, n: nat, x: nat)
    requires n <= 8 && x < |t|
  {
    t[x] == -1 || (0 <= t[x] < n && (x == FirstFull(BLOCK_BYTES, t[x]) || x == FirstFull(EOS_BYTES, t[x])))
  }

  /** The table gives the number of bits wanted from the previous byte, or -1. */
  ghost predicate IsBackBits(t: seq<int>, n: nat)
    requires n <= 8
  {
    && |t| == 256
    && (forall b: nat | b < n :: t[FirstFull(BLOCK_BYTES, b)] == b && t[FirstFull(EOS_BYTES, b)] == b)
    && (forall x: nat | x < 256 :: Entry(t, n, x))
  }

  method BackBitsTable() returns (t: array<int>)
    ensures fresh(t) && IsBackBits(t[..], 8)
  {
    hide FirstFull;
    t := new int[256](_ => -1);
    var i := 0;
    while i < 8
      invariant 0 <= i <= 8
      invariant IsBackBits(t[..], i)
    {
      EnterShift(t[..], i);
      t[FirstFull(BLOCK_BYTES, i)] := i;
      t[FirstFull(EOS_BYTES, i)] := i;
      i := i + 1;
    }
  }

  lemma EnterShift(t: seq<int>, n: nat)
    requires n < 8 && IsBackBits(t, n)
    ensures IsBackBits(t[FirstFull(BLOCK_BYTES, n) := n][FirstFull(EOS_BYTES, n) := n], n + 1)
  {
    hide FirstFull;
    forall b: nat | b <= n
      ensures FirstFull(BLOCK_BYTES, b) != FirstFull(EOS_BYTES, n)
      ensures b < n ==> FirstFull(BLOCK_BYTES, b) != FirstFull(BLOCK_BYTES, n)
      ensures b < n ==> FirstFull(EOS_BYTES, b) !in {FirstFull(BLOCK_BYTES, n), FirstFull(EOS_BYTES, n)}
    {
      FirstBytes();
    }
    var t' := t[FirstFull(BLOCK_BYTES, n) := n][FirstFull(EOS_BYTES, n) := n];
    var next := n + 1;
    forall x: nat | x < 256
      ensures Entry(t', next, x)
    {
      assert Entry(t, n, x);
    }
  }

  // ----- Testing one byte -----

  const MAGIC_MASK: bv64 := 0xffff_ffff_ffff

  function BigEndian(s: seq<byte>): bv64
    requires |s| == WORD
  {
    (s[0] as bv64 << 56) | (s[1] as bv64 << 48) | (s[2] as bv64 << 40) | (s[3] as bv64 << 32) |
    (s[4] as bv64 << 24) | (s[5] as bv64 << 16) | (s[6] as bv64 << 8) | (s[7] as bv64)
  }

  /** The 48 bits that start `b` bits before the eight bytes `s`, in the byte `u`. */
  function Candidate(u: byte, s: seq<byte>, b: nat): bv64
    requires |s| == WORD && b < 8
  {
    var k := b as bv7;
    (BigEndian(s) >> (16 + k)) | (((u as bv64) << (48 - k)) & MAGIC_MASK)
  }

  /** The same 48 bits, compared with a magic number a byte at a time. */
  predicate Matches(u: byte, s: seq<byte>, b: nat, magic: seq<byte>)
    requires |s| == WORD && b < 8 && |magic| == 6
  {
    && Splice(u, s[0], 8 - b) == magic[0] && Splice(s[0], s[1], 8 - b) == magic[1]
    && Splice(s[1], s[2], 8 - b) == magic[2] && Splice(s[2], s[3], 8 - b) == magic[3]
    && Splice(s[3], s[4], 8 - b) == magic[4] && Splice(s[4], s[5], 8 - b) == magic[5]
  }

  function Join(a0: byte, a1: byte, a2: byte, a3: byte, a4: byte, a5: byte): bv64 {
    (a0 as bv64 << 40) | (a1 as bv64 << 32) | (a2 as bv64 << 24) | (a3 as bv64 << 16) | (a4 as bv64 << 8) | (a5 as bv64)
  }

  lemma JoinIs(a0: byte, a1: byte, a2: byte, a3: byte, a4: byte, a5: byte, magic: bv64)
    requires magic == BLOCK_MAGIC || magic == EOS_MAGIC
    ensures Join(a0, a1, a2, a3, a4, a5) == magic <==> [a0, a1, a2, a3, a4, a5] == BytesOf(magic)
  {
    var m := BytesOf(magic);
    assert Join(m[0], m[1], m[2], m[3], m[4], m[5]) == magic;
    assert [a0, a1, a2, a3, a4, a5] == m <==> a0 == m[0] && a1 == m[1] && a2 == m[2] && a3 == m[3] && a4 == m[4] && a5 == m[5];
  }

  /** The shift and mask line the six bytes up. */
  predicate Aligned(u: byte, s: seq<byte>, b: nat)
    requires |s| == WORD && b < 8
  {
    Candidate(u, s, b) == Join(Splice(u, s[0], 8 - b), Splice(s[0], s[1], 8 - b), Splice(s[1], s[2], 8 - b),
                               Splice(s[2], s[3], 8 - b), Splice(s[3], s[4], 8 - b), Splice(s[4], s[5], 8 - b))
  }

  lemma CandidateAligned(u: byte, s: seq<byte>, b: nat)
    requires |s| == WORD && b < 8
    ensures Aligned(u, s, b)
  {
    var k, t := b as bv7, (8 - b) as bv4;
    assert k < 8 && t == 8 - (k as bv4) by {
      hide *;
      if b == 0 {} else if b == 1 {} else if b == 2 {} else if b == 3 {}
      else if b == 4 {} else if b == 5 {} else if b == 6 {} else {}
    }
  }

  lemma CandidateMatches(u: byte, s: seq<byte>, b: nat, magic: bv64)
    requires |s| == WORD && b < 8 && (magic == BLOCK_MAGIC || magic == EOS_MAGIC)
    ensures Candidate(u, s, b) == magic <==> Matches(u, s, b, BytesOf(magic))
  {
    hide Candidate, Splice, Join;
    CandidateAligned(u, s, b);
    JoinIs(Splice(u, s[0], 8 - b), Splice(s[0], s[1], 8 - b), Splice(s[1], s[2], 8 - b),
           Splice(s[2], s[3], 8 - b), Splice(s[3], s[4], 8 - b), Splice(s[4], s[5], 8 - b), magic);
  }

  /** A match fixes the first full byte. */
  lemma MatchFirst(u: byte, s: seq<byte>, b: nat, magic: bv64)
    requires |s| == WORD && b < 8 && (magic == BLOCK_MAGIC || magic == EOS_MAGIC)
    requires Matches(u, s, b, BytesOf(magic))
    ensures s[0] as nat == FirstFull(BytesOf(magic), b)
  {
    if b == 0 {} else if b == 1 {} else if b == 2 {} else if b == 3 {}
    else if b == 4 {} else if b == 5 {} else if b == 6 {} else {}
  }

  datatype Mark = Mark(magic: bv64, bits: nat)

  /** The magic number whose first full byte is `s[0]`, trying every shift. */
  function Look(u: byte, s: seq<byte>, b: nat := 0): (m: Option<Mark>)
    requires |s| == WORD && b <= 8
    ensures m.Some? ==> m.value.bits < 8 && (m.value.magic == BLOCK_MAGIC || m.value.magic == EOS_MAGIC)
    ensures m.Some? ==> Matches(u, s, m.value.bits, BytesOf(m.value.magic))
    decreases 8 - b
  {
    if b == 8 then None
    else if Matches(u, s, b, BLOCK_BYTES) then Some(Mark(BLOCK_MAGIC, b))
    else if Matches(u, s, b, EOS_BYTES) then Some(Mark(EOS_MAGIC, b))
    else Look(u, s, b + 1)
  }

  /** At most one magic number, at one shift, can match. */
  lemma LookFinds(u: byte, s: seq<byte>, b: nat, magic: bv64, from: nat)
    requires |s| == WORD && from <= b < 8 && (magic == BLOCK_MAGIC || magic == EOS_MAGIC)
    requires Matches(u, s, b, BytesOf(magic))
    ensures Look(u, s, from) == Some(Mark(magic, b))
    decreases 8 - from
  {
    hide Matches, FirstFull;
    MatchFirst(u, s, b, magic);
    if Matches(u, s, from, BLOCK_BYTES) {
      MatchFirst(u, s, from, BLOCK_MAGIC);
      FirstBytesDistinct(magic, b, BLOCK_MAGIC, from);
    } else if Matches(u, s, from, EOS_BYTES) {
      MatchFirst(u, s, from, EOS_MAGIC);
      FirstBytesDistinct(magic, b, EOS_MAGIC, from);
    } else {
      LookFinds(u, s, b, magic, from + 1);
    }
  }

  /** One table lookup and one comparison do the work of all the shifts. */
  lemma TableLook(t: seq<int>, u: byte, s: seq<byte>)
    requires IsBackBits(t, 8) && |s| == WORD
    ensures s[0] as nat < |t|
    ensures t[s[0] as nat] == -1 || 0 <= t[s[0] as nat] < 8
    ensures var b := t[s[0] as nat];
            Look(u, s) == if b == -1 then None
                          else if Candidate(u, s, b) == BLOCK_MAGIC then Some(Mark(BLOCK_MAGIC, b))
                          else if Candidate(u, s, b) == EOS_MAGIC then Some(Mark(EOS_MAGIC, b))
                          else None
  {
    hide Matches, FirstFull, Candidate;
    var x := s[0] as nat;
    assert Entry(t, 8, x);
    var b := t[x];
    if b != -1 {
      CandidateMatches(u, s, b, BLOCK_MAGIC);
      CandidateMatches(u, s, b, EOS_MAGIC);
      if Matches(u, s, b, BLOCK_BYTES) {
        LookFinds(u, s, b, BLOCK_MAGIC, 0);
      } else if Matches(u, s, b, EOS_BYTES) {
        LookFinds(u, s, b, EOS_MAGIC, 0);
      }
    }
    var m := Look(u, s);
    if m.Some? {
      MatchFirst(u, s, m.value.bits, m.value.magic);
    }
  }

  // ----- The scan as a sequence of visits to bytes -----

  /** Testing the byte at `pos`: the eight bytes from there, and the byte taken to precede it. */
  datatype AnyVisit = Visit(pos: nat, prev: byte, window: seq<byte>)
  type Visit = v: AnyVisit | |v.window| == WORD witness Visit(0, 0, [0, 0, 0, 0, 0, 0, 0, 0])

  /** What the scan carries: visits left until a level byte, the last level, the list so far. */
  datatype Scan = Scan(lcount: nat, level: byte, found: seq<Boundary>)

  const START: Scan := Scan(4, 0, []) // sizeof(Magic) + 1
  const AFTER_EOS: nat := 13          // BlockMagicBytes + sizeof(uint32_t) + sizeof(Magic)

  function Step(st: Scan, v: Visit): Scan {
    var lcount := if st.lcount > 0 then st.lcount - 1 else 0;
    var level := if st.lcount == 1 then v.window[0] else st.level;
    match Look(v.prev, v.window)
    case None => Scan(lcount, level, st.found)
    case Some(m) =>
      Scan(if m.magic == EOS_MAGIC then AFTER_EOS else lcount, level, st.found + [Boundary(m.magic, level, v.pos, m.bits)])
  }

  function Run(st: Scan, vs: seq<Visit>): Scan {
    if vs == [] then st else Step(Run(st, vs[..|vs| - 1]), vs[|vs| - 1])
  }

  lemma RunOne(st: Scan, vs: seq<Visit>, v: Visit)
    ensures Run(st, vs + [v]) == Step(Run(st, vs), v)
  {
    assert (vs + [v])[..|vs|] == vs;
  }

  ghost predicate Shows(file: seq<byte>, v: Visit) {
    v.pos + WORD <= |file| && v.window == file[v.pos..v.pos + WORD]
  }

  /** Visit `k` moves on to the next byte, and sees the byte before it. */
  ghost predicate Fresh(vs: seq<Visit>, k: nat)
    requires 0 < k < |vs|
  {
    vs[k].pos == vs[k - 1].pos + 1 && vs[k].prev == vs[k - 1].window[0]
  }

  /** Visit `k` goes back to the byte just visited: the seam of two chunks. */
  ghost predicate Seam(vs: seq<Visit>, k: nat)
    requires 0 < k < |vs|
  {
    vs[k].pos == vs[k - 1].pos && (1 < k ==> Fresh(vs, k - 1))
  }

  /** Bytes 0 to `last` in order, each visited once, or twice at a seam. */
  ghost predicate Enumerates(file: seq<byte>, vs: seq<Visit>, last: nat) {
    && vs != [] && vs[0].pos == 0 && vs[|vs| - 1].pos == last
    && (forall k: nat | k < |vs| :: Shows(file, vs[k]))
    && (forall k: nat | 0 < k < |vs| :: Fresh(vs, k) || Seam(vs, k))
  }

  /** A chunk of the file, read up to byte `rpos`. */
  predicate ChunkOf(file: seq<byte>, chunk: seq<byte>, rpos: nat) {
    |chunk| <= rpos <= |file| && chunk == file[rpos - |chunk|..rpos]
  }

  /** A chunk that starts at byte `base` has been tested up to its byte `i`. */
  ghost predicate Progress(file: seq<byte>, vs0: seq<Visit>, vs: seq<Visit>, base: nat, i: nat) {
    if i == 0 then
      vs == vs0 && if vs0 == [] then base == 0 else Enumerates(file, vs0, base) && (1 < |vs0| ==> Fresh(vs0, |vs0| - 1))
    else
      Enumerates(file, vs, base + i - 1) && (1 < |vs| && (1 < i || vs0 == []) ==> Fresh(vs, |vs| - 1))
  }

  lemma Advance(file: seq<byte>, vs0: seq<Visit>, vs: seq<Visit>, base: nat, i: nat, v: Visit)
    requires Progress(file, vs0, vs, base, i) && Shows(file, v) && v.pos == base + i
    requires 0 < i ==> v.prev == file[base + i - 1]
    ensures Progress(file, vs0, vs + [v], base, i + 1)
  {
    var vs' := vs + [v];
    forall k: nat | 0 < k < |vs'|
      ensures Fresh(vs', k) || Seam(vs', k)
    {
      if k < |vs| {
        assert Fresh(vs, k) || Seam(vs, k);
        assert 1 < k ==> Fresh(vs', k - 1) == Fresh(vs, k - 1);
      } else {
        assert Shows(file, vs[k - 1]);
        assert 1 < k ==> Fresh(vs', k - 1) == Fresh(vs, k - 1);
      }
    }
  }

  lemma Finished(file: seq<byte>, vs0: seq<Visit>, vs: seq<Visit>, base: nat, i: nat)
    requires Progress(file, vs0, vs, base, i) && 0 < i && (1 < i || vs0 == [])
    ensures Progress(file, vs, vs, base + i - 1, 0) && vs != []
  {
  }

  /** A step of the scan, done with the table. */
  lemma TableStep(t: seq<int>, st: Scan, v: Visit)
    requires IsBackBits(t, 8)
    ensures v.window[0] as nat < |t| && (t[v.window[0] as nat] == -1 || 0 <= t[v.window[0] as nat] < 8)
    ensures var b, level := t[v.window[0] as nat], if st.lcount == 1 then v.window[0] else st.level;
            var lcount := if st.lcount > 0 then st.lcount - 1 else 0;
            Step(st, v) == if b == -1 then Scan(lcount, level, st.found)
                           else
                             var c := Candidate(v.prev, v.window, b);
                             if c == EOS_MAGIC then Scan(AFTER_EOS, level, st.found + [Boundary(c, level, v.pos, b)])
                             else if c == BLOCK_MAGIC then Scan(lcount, level, st.found + [Boundary(c, level, v.pos, b)])
                             else Scan(lcount, level, st.found)
  {
    hide Look, Candidate, IsBackBits;
    TableLook(t, v.prev, v.window);
  }

  /** The body of the loop. */
  method VisitByte(t: array<int>, buf: array<byte>, i: nat, prev: byte, pos: nat, lcount: nat, level: byte, bl: seq<Boundary>)
    returns (lcount': nat, level': byte, bl': seq<Boundary>)
    requires IsBackBits(t[..], 8) && i + WORD <= buf.Length
    ensures Scan(lcount', level', bl') == Step(Scan(lcount, level, bl), Visit(pos, prev, buf[i..i + WORD]))
  {
    hide Look, Candidate, Step, IsBackBits;
    ghost var v0: Visit := Visit(pos, prev, buf[i..i + WORD]);
    TableStep(t[..], Scan(lcount, level, bl), v0);
    lcount', level', bl' := lcount, level, bl;
    if lcount' > 0 {
      lcount' := lcount' - 1;
      if lcount' == 0 {
        level' := buf[i];
      }
    }
    assert v0.window[0] == buf[i];
    var b := t[buf[i] as nat];
    if b == -1 {
      return;
    }
    var v := Candidate(prev, buf[i..i + WORD], b);
    if v == BLOCK_MAGIC || v == EOS_MAGIC {
      bl' := bl' + [Boundary(v, level', pos, b)];
      if v == EOS_MAGIC {
        lcount' := AFTER_EOS;
      }
    }
  }

  /** Tests the bytes of one chunk. Nothing is known of the byte before the buffer. */
  method ScanChunk(file: seq<byte>, t: array<int>, buf: array<byte>, bsz: nat, rpos: nat, st: Scan, ghost vs: seq<Visit>)
    returns (st': Scan, ghost vs': seq<Visit>)
    requires IsBackBits(t[..], 8)
    requires WORD < bsz <= buf.Length && bsz <= rpos <= |file| && ChunkOf(file, buf[..bsz], rpos)
    requires Progress(file, vs, vs, rpos - bsz, 0) && (vs != [] ==> WORD + 1 < bsz)
    requires st == Run(START, vs)
    ensures Progress(file, vs', vs', rpos - WORD - 1, 0) && vs' != [] && st' == Run(START, vs')
    ensures |vs'| == |vs| + bsz - WORD && vs'[..|vs|] == vs
    ensures forall k | |vs| <= k < |vs'| :: vs'[k].pos == rpos - bsz + k - |vs|
  {
    hide Look, Run, Step, Enumerates, Progress, IsBackBits;
    vs' := vs;
    var lcount, level, bl := st.lcount, st.level, st.found;
    var outside: byte := *;
    var i := 0;
    while i < bsz - WORD
      invariant 0 <= i <= bsz - WORD
      invariant Progress(file, vs, vs', rpos - bsz, i)
      invariant |vs'| == |vs| + i && vs'[..|vs|] == vs
      invariant forall k | |vs| <= k < |vs'| :: vs'[k].pos == rpos - bsz + k - |vs|
      invariant Scan(lcount, level, bl) == Run(START, vs')
    {
      var prev := if i == 0 then outside else buf[i - 1];
      var pos := rpos - (bsz - i);
      ChunkBytes(file, buf[..bsz], rpos - bsz, i);
      lcount, level, bl := VisitByte(t, buf, i, prev, pos, lcount, level, bl);
      ghost var v: Visit := Visit(pos, prev, buf[i..i + WORD]);
      Inner(buf[..], bsz, i);
      Advance(file, vs, vs', rpos - bsz, i, v);
      RunOne(START, vs', v);
      vs' := vs' + [v];
      i := i + 1;
    }
    st' := Scan(lcount, level, bl);
    Finished(file, vs, vs', rpos - bsz, i);
  }

  lemma Inner(s: seq<byte>, n: nat, i: nat)
    requires i + WORD <= n <= |s|
    ensures s[..n][i..i + WORD] == s[i..i + WORD]
  {
  }

  lemma ChunkBytes(file: seq<byte>, chunk: seq<byte>, base: nat, i: nat)
    requires base + |chunk| <= |file| && chunk == file[base..base + |chunk|] && i + WORD <= |chunk|
    ensures chunk[i..i + WORD] == file[base + i..base + i + WORD]
    ensures 0 < i ==> chunk[i - 1] == file[base + i - 1]
  {
    assert forall k | i <= k < i + WORD :: chunk[k] == file[base..base + |chunk|][k] == file[base + k];
  }

  /** Reads at most `max` bytes and at least `least`; unless the read is `full`,
      possibly fewer than there are. */
  method TryRead(file: seq<byte>, pos: nat, buf: array<byte>, at: nat, max: nat, least: nat, full: bool) returns (r: nat)
    requires 0 < least <= max && pos + least <= |file| && at + max <= buf.Length
    modifies buf
    ensures full ==> r == max || pos + r == |file|
    ensures least <= r <= max && pos + r <= |file| && buf[at..at + r] == file[pos..pos + r]
    ensures buf[..at] == old(buf[..at])
  {
    var most := if pos + max <= |file| then max else |file| - pos;
    r :| (if full then most else least) <= r <= most;
    forall k | 0 <= k < r {
      buf[at + k] := file[pos + k];
    }
  }

  /** Carries the last nine bytes over to the front of the buffer and reads on. */
  method NextChunk(file: seq<byte>, buf: array<byte>, bsz: nat, rpos: nat, full: bool) returns (bsz': nat, rpos': nat)
    requires buf.Length == CHUNK_SIZE && WORD < bsz <= CHUNK_SIZE && bsz <= rpos < |file|
    requires ChunkOf(file, buf[..bsz], rpos)
    modifies buf
    ensures WORD + 1 < bsz' <= CHUNK_SIZE && rpos < rpos' <= |file| && rpos' - bsz' == rpos - WORD - 1
    ensures ChunkOf(file, buf[..bsz'], rpos')
    ensures full ==> bsz' == CHUNK_SIZE || rpos' == |file|
  {
    ghost var chunk := buf[..bsz];
    assert buf[bsz - WORD - 1..bsz] == chunk[bsz - WORD - 1..];
    TailOf(file, rpos - bsz, rpos, WORD + 1);
    CarryOver(buf, bsz);
    var r := TryRead(file, rpos, buf, WORD + 1, CHUNK_SIZE - WORD - 1, 1, full);
    bsz', rpos' := r + WORD + 1, rpos + r;
    ghost var all := buf[..bsz'];
    Parted(all, WORD + 1);
    assert all[..WORD + 1] == buf[..WORD + 1] && all[WORD + 1..] == buf[WORD + 1..bsz'];
    Joined(file, rpos - WORD - 1, rpos, rpos');
  }

  method CarryOver(buf: array<byte>, bsz: nat)
    requires WORD < bsz <= buf.Length
    modifies buf
    ensures buf[..WORD + 1] == old(buf[bsz - WORD - 1..bsz])
  {
    forall k | 0 <= k < WORD + 1 {
      buf[k] := buf[bsz - WORD - 1 + k];
    }
  }

  lemma TailOf(file: seq<byte>, from: nat, to: nat, n: nat)
    requires from + n <= to <= |file|
    ensures file[from..to][to - from - n..] == file[to - n..to]
  {
  }

  lemma Parted(s: seq<byte>, n: nat)
    requires n <= |s|
    ensures s[..n] + s[n..] == s
  {
  }

  lemma Joined(file: seq<byte>, a: nat, b: nat, c: nat)
    requires a <= b <= c <= |file|
    ensures file[a..b] + file[b..c] == file[a..c]
  {
  }

  /** The boundaries are in file order. */
  ghost predicate FileOrder(bl: seq<Boundary>) {
    forall i, j | 0 <= i < j < |bl| :: bl[i].coff <= bl[j].coff
  }

  /** Every magic number after the first bit is reported whose first full byte is
      at least nine bytes from the end. */
  ghost predicate ReportsAll(file: seq<byte>, bl: seq<Boundary>) {
    forall q: nat | 1 <= q <= 8 * (|file| - WORD - 1) ::
      (MagicAt(file, q, BLOCK_MAGIC) ==> Reports(bl, q, BLOCK_MAGIC)) && (MagicAt(file, q, EOS_MAGIC) ==> Reports(bl, q, EOS_MAGIC))
  }

  lemma FirstChunk(file: seq<byte>, chunk: seq<byte>)
    requires |chunk| <= |file| && chunk == file[0..|chunk|]
    ensures ChunkOf(file, chunk, |chunk|)
  {
  }

  /** Lists the places where a block or an end-of-stream may start. The first
      read is taken to deliver at least nine bytes; later reads may deliver any
      number, unless all reads are `full`. The ghost result lists the bytes
      tested, in order. */
  method FindBlockBoundaryCandidates(file: seq<byte>, full: bool) returns (bl: seq<Boundary>, ghost vs: seq<Visit>)
    requires WORD < |file|
    ensures Enumerates(file, vs, |file| - WORD - 1) && bl == Run(START, vs).found
    ensures (full ==> FullReads(vs)) && (1 < |vs| ==> Fresh(vs, |vs| - 1))
    ensures FileOrder(bl) && ReportsAll(file, bl)
  {
    hide Look, Run, Step, Enumerates, Fresh, IsBackBits, FullReads, Progress, ChunkOf, FileOrder, ReportsAll;
    var t := BackBitsTable();
    ghost var table := t[..];
    var buf := new byte[CHUNK_SIZE];
    var bsz := TryRead(file, 0, buf, 0, CHUNK_SIZE, WORD + 1, full);
    var rpos := bsz;
    FirstChunk(file, buf[..bsz]);
    var st := START;
    vs := [];
    RunNone();
    NoneTested(file);
    ghost var m := 0; // chunks read before
    while true
      invariant (t as object) != (buf as object) && t[..] == table && fresh(buf) && buf.Length == CHUNK_SIZE
      invariant IsBackBits(table, 8)
      invariant WORD < bsz <= CHUNK_SIZE && bsz <= rpos <= |file| && ChunkOf(file, buf[..bsz], rpos)
      invariant Progress(file, vs, vs, rpos - bsz, 0) && (vs != [] ==> WORD + 1 < bsz)
      invariant st == Run(START, vs)
      invariant full ==> FullReads(vs) && |vs| == m * PER_CHUNK && rpos - bsz == m * (PER_CHUNK - 1)
      invariant full ==> bsz == CHUNK_SIZE || rpos == |file|
      decreases |file| - rpos
    {
      ghost var before := vs;
      st, vs := ScanChunk(file, t, buf, bsz, rpos, st, vs);
      if full {
        FullChunk(before, vs, m);
      }
      m := m + 1;
      if rpos == |file| {
        ScanPromise(file, vs);
        return st.found, vs;
      }
      bsz, rpos := NextChunk(file, buf, bsz, rpos, full);
    }
  }

  /** The order of visits when every read fills the buffer: a chunk tests
      `PER_CHUNK` bytes, the first of them the last of the chunk before. */
  ghost predicate FullReads(vs: seq<Visit>) {
    forall k: nat | k < |vs| :: vs[k].pos == k - k / PER_CHUNK
  }

  lemma FullChunk(before: seq<Visit>, vs: seq<Visit>, m: nat)
    requires FullReads(before) && |before| == m * PER_CHUNK && |before| <= |vs| <= |before| + PER_CHUNK && vs[..|before|] == before
    requires forall k | |before| <= k < |vs| :: vs[k].pos == m * (PER_CHUNK - 1) + k - |before|
    ensures FullReads(vs)
  {
    forall k: nat | k < |vs|
      ensures vs[k].pos == k - k / PER_CHUNK
    {
      if k < |before| {
        assert vs[k] == before[k];
      } else {
        Quotient(k, m);
      }
    }
  }

  lemma Quotient(k: nat, m: nat)
    requires m * PER_CHUNK <= k < m * PER_CHUNK + PER_CHUNK
    ensures k / PER_CHUNK == m
  {
  }

  lemma ScanPromise(file: seq<byte>, vs: seq<Visit>)
    requires WORD < |file| && vs != [] && Progress(file, vs, vs, |file| - WORD - 1, 0)
    ensures Enumerates(file, vs, |file| - WORD - 1) && (1 < |vs| ==> Fresh(vs, |vs| - 1))
    ensures FileOrder(Run(START, vs).found) && ReportsAll(file, Run(START, vs).found)
  {
    hide Run, Enumerates, MagicAt, Reports;
    FoundInOrder(file, vs, |file| - WORD - 1);
    forall q: nat | 1 <= q <= 8 * (|file| - WORD - 1)
      ensures (MagicAt(file, q, BLOCK_MAGIC) ==> Reports(Run(START, vs).found, q, BLOCK_MAGIC))
              && (MagicAt(file, q, EOS_MAGIC) ==> Reports(Run(START, vs).found, q, EOS_MAGIC))
    {
      if MagicAt(file, q, BLOCK_MAGIC) {
        NothingMissed(file, vs, |file| - WORD - 1, q, BLOCK_MAGIC);
      }
      if MagicAt(file, q, EOS_MAGIC) {
        NothingMissed(file, vs, |file| - WORD - 1, q, EOS_MAGIC);
      }
    }
  }

  lemma NoneTested(file: seq<byte>)
    ensures Progress(file, [], [], 0, 0) && FullReads([])
  {
  }

  lemma RunNone()
    ensures Run(START, []) == START && Chosen([], []) == []
  {
  }

  // ----- What the scan finds -----

  /** A magic number starting at a bit of the file. */
  datatype Hit = Hit(at: int, magic: bv64)

  ghost predicate MagicAt(file: seq<byte>, q: nat, magic: bv64)
    requires magic == BLOCK_MAGIC || magic == EOS_MAGIC
  {
    CopiesBits(file, q, BytesOf(magic), 0, 48)
  }

  /** The list has a boundary with this magic number at bit `q`. */
  ghost predicate Reports(bl: seq<Boundary>, q: nat, magic: bv64) {
    exists i :: 0 <= i < |bl| && bl[i].magic == magic && 8 * bl[i].coff - bl[i].bits == q
  }

  /** The naive search: every bit position from `q` up to `hi`, comparing 48 bits at each. */
  ghost function NaiveSearch(file: seq<byte>, q: nat, hi: nat): seq<Hit>
    decreases hi - q
  {
    if hi <= q then [] else HitAt(file, q) + NaiveSearch(file, q + 1, hi)
  }

  ghost function HitAt(file: seq<byte>, q: nat): seq<Hit> {
    if MagicAt(file, q, BLOCK_MAGIC) then [Hit(q, BLOCK_MAGIC)]
    else if MagicAt(file, q, EOS_MAGIC) then [Hit(q, EOS_MAGIC)] else []
  }

  lemma {:induction false} NaiveAppend(file: seq<byte>, q: nat, mid: nat, hi: nat)
    requires q <= mid <= hi
    ensures NaiveSearch(file, q, hi) == NaiveSearch(file, q, mid) + NaiveSearch(file, mid, hi)
    decreases mid - q
  {
    hide HitAt;
    if q < mid {
      NaiveAppend(file, q + 1, mid, hi);
    }
  }

  /** A bit position matches exactly when the bytes there, shifted into place, match. */
  lemma MagicBytes(file: seq<byte>, p: nat, b: nat, u: byte, magic: bv64)
    requires b < 8 && p + WORD <= |file| && (b == 0 || (0 < p && u == file[p - 1]))
    requires magic == BLOCK_MAGIC || magic == EOS_MAGIC
    ensures 8 * p >= b
    ensures MagicAt(file, 8 * p - b, magic) <==> Matches(u, file[p..p + WORD], b, BytesOf(magic))
  {
    hide Bit, Splice, BytesOf, ByteAt, CopiesBits;
    var q := 8 * p - b;
    var m := BytesOf(magic);
    ShiftedByte(file, p, b, u, 0);
    ShiftedByte(file, p, b, u, 1);
    ShiftedByte(file, p, b, u, 2);
    ShiftedByte(file, p, b, u, 3);
    ShiftedByte(file, p, b, u, 4);
    ShiftedByte(file, p, b, u, 5);
    BitsAreBytes(file, q, m);
  }

  lemma ShiftedByte(file: seq<byte>, p: nat, b: nat, u: byte, m: nat)
    requires b < 8 && m < 6 && p + WORD <= |file| && (b == 0 || (0 < p && u == file[p - 1]))
    ensures ByteAt(file, 8 * p - b + 8 * m) ==
            Splice(if m == 0 then u else file[p..p + WORD][m - 1], file[p..p + WORD][m], 8 - b)
  {
    hide Bit;
    if b == 0 {
      SpliceEnds(file[p + m], 0);
      SpliceEnds(if m == 0 then u else file[p + m - 1], file[p + m]);
    }
  }

  lemma BitsAreBytes(file: seq<byte>, q: nat, m: seq<byte>)
    requires |m| == 6 && q + 48 <= 8 * |file|
    ensures CopiesBits(file, q, m, 0, 48) <==> (forall i: nat | i < 6 :: ByteAt(file, q + 8 * i) == m[i])
  {
    hide Bit, ByteAt;
    if CopiesBits(file, q, m, 0, 48) {
      forall i: nat | i < 6
        ensures ByteAt(file, q + 8 * i) == m[i]
      {
        forall k: nat | k < 8
          ensures Bit(ByteAt(file, q + 8 * i), k) == Bit(m[i], k)
        {
          ByteAtBit(file, q + 8 * i, k);
          assert BitAt(file, q + 8 * i + k) == BitAt(m, 8 * i + k);
        }
        SameBits(ByteAt(file, q + 8 * i), m[i]);
      }
    }
    if forall i: nat | i < 6 :: ByteAt(file, q + 8 * i) == m[i] {
      forall r: nat | q <= r < q + 48
        ensures BitAt(file, r) == BitAt(m, r - q)
      {
        var i, k := (r - q) / 8, (r - q) % 8;
        ByteAtBit(file, q + 8 * i, k);
        assert ByteAt(file, q + 8 * i) == m[i];
      }
    }
  }

  /** Around one byte, the eight bit positions give what the one visit gives. */
  lemma OneByte(file: seq<byte>, v: Visit)
    requires Shows(file, v) && 0 < v.pos && v.prev == file[v.pos - 1]
    ensures NaiveSearch(file, 8 * v.pos - 7, 8 * v.pos + 1) ==
            match Look(v.prev, v.window) case None => [] case Some(m) => [Hit(8 * v.pos - m.bits, m.magic)]
  {
    hide Look, MagicAt, Matches;
    ByteFrom(file, v, 7);
  }

  lemma {:induction false} ByteFrom(file: seq<byte>, v: Visit, b: nat)
    requires Shows(file, v) && 0 < v.pos && v.prev == file[v.pos - 1] && b < 8
    ensures NaiveSearch(file, 8 * v.pos - b, 8 * v.pos + 1) ==
            match Look(v.prev, v.window)
            case None => []
            case Some(m) => if m.bits <= b then [Hit(8 * v.pos - m.bits, m.magic)] else []
    decreases b
  {
    hide Look, HitAt, NaiveSearch;
    var q := 8 * v.pos - b;
    OneBit(file, v, b);
    NaiveStep(file, q, 8 * v.pos + 1);
    if b == 0 {
      NaiveNothing(file, q + 1);
    } else {
      ByteFrom(file, v, b - 1);
    }
  }

  lemma NaiveStep(file: seq<byte>, q: nat, hi: nat)
    requires q < hi
    ensures NaiveSearch(file, q, hi) == HitAt(file, q) + NaiveSearch(file, q + 1, hi)
  {
  }

  lemma OneBit(file: seq<byte>, v: Visit, b: nat)
    requires Shows(file, v) && 0 < v.pos && v.prev == file[v.pos - 1] && b < 8
    ensures var m := Look(v.prev, v.window);
            HitAt(file, 8 * v.pos - b) == if m.Some? && m.value.bits == b then [Hit(8 * v.pos - b, m.value.magic)] else []
  {
    hide Look, MagicAt, Matches;
    var q := 8 * v.pos - b;
    MagicBytes(file, v.pos, b, v.prev, BLOCK_MAGIC);
    MagicBytes(file, v.pos, b, v.prev, EOS_MAGIC);
    if MagicAt(file, q, BLOCK_MAGIC) {
      LookFinds(v.prev, v.window, b, BLOCK_MAGIC, 0);
    } else if MagicAt(file, q, EOS_MAGIC) {
      LookFinds(v.prev, v.window, b, EOS_MAGIC, 0);
    }
  }

  /** For each boundary found, whether its byte was visited with the true byte before it. */
  ghost function Trusted(vs: seq<Visit>): seq<bool> {
    if vs == [] then []
    else
      var n := |vs| - 1;
      var v := vs[n];
      Trusted(vs[..n]) + if Look(v.prev, v.window).Some? then [0 < n && Fresh(vs, n)] else []
  }

  ghost function Chosen(found: seq<Boundary>, keep: seq<bool>): seq<Hit>
    requires |found| == |keep|
  {
    if found == [] then []
    else
      var n := |found| - 1;
      Chosen(found[..n], keep[..n]) + if keep[n] then [Hit(8 * found[n].coff - found[n].bits, found[n].magic)] else []
  }

  ghost predicate SeamByte(vs: seq<Visit>, p: nat) {
    p == 0 || exists k: nat :: 0 < k < |vs| && Seam(vs, k) && vs[k].pos == p
  }

  lemma ChosenMore(found: seq<Boundary>, keep: seq<bool>, b: Boundary, k: bool)
    requires |found| == |keep|
    ensures Chosen(found + [b], keep + [k]) == Chosen(found, keep) + if k then [Hit(8 * b.coff - b.bits, b.magic)] else []
  {
    assert (found + [b])[..|found|] == found && (keep + [k])[..|keep|] == keep;
  }

  /** Each visit adds at most one boundary to the list, and one flag to go with it. */
  lemma OneMore(vs: seq<Visit>)
    requires vs != []
    ensures var n := |vs| - 1; var v := vs[n]; var m := Look(v.prev, v.window);
            && Trusted(vs) == Trusted(vs[..n]) + (if m.Some? then [0 < n && Fresh(vs, n)] else [])
            && Run(START, vs).found == Run(START, vs[..n]).found +
               (if m.Some? then [Boundary(m.value.magic, Run(START, vs).level, v.pos, m.value.bits)] else [])
  {
    hide Look;
  }

  /** Without the reports made at seams, the list is what the naive search of
      bits 1 to `8 * last` finds, in the same order. */
  lemma {:induction false} ScanRefinesNaive(file: seq<byte>, vs: seq<Visit>, last: nat)
    requires Enumerates(file, vs, last)
    ensures |Run(START, vs).found| == |Trusted(vs)|
    ensures Chosen(Run(START, vs).found, Trusted(vs)) == NaiveSearch(file, 1, 8 * last + 1)
    decreases |vs|
  {
    hide Look, NaiveSearch, Run, Trusted, Enumerates, Chosen;
    var n := |vs| - 1;
    RunNone();
    NaiveNothing(file, 1);
    var more := LastVisit(file, vs, last);
    OneMore(vs);
    if more {
      PrefixEnumerates(file, vs, last);
      ScanRefinesNaive(file, vs[..n], vs[n - 1].pos);
      if Fresh(vs, n) {
        OneByte(file, vs[n]);
        NaiveAppend(file, 1, 8 * vs[n - 1].pos + 1, 8 * last + 1);
      }
    }
    var found, keep := Run(START, vs[..n]).found, Trusted(vs[..n]);
    var found', keep' := Run(START, vs).found, Trusted(vs);
    if |found'| > |found| {
      ChosenMore(found, keep, found'[|found|], keep'[|found|]);
      assert found' == found + [found'[|found|]] && keep' == keep + [keep'[|found|]];
    } else {
      assert found' == found && keep' == keep;
    }
  }

  /** The last visit either moved on or went back to a seam, unless it is the only one. */
  lemma LastVisit(file: seq<byte>, vs: seq<Visit>, last: nat) returns (more: bool)
    requires Enumerates(file, vs, last)
    ensures var n := |vs| - 1; 0 <= n && vs[n].pos == last && Shows(file, vs[n]) && more == (0 < n)
    ensures !more ==> last == 0 && vs[..|vs| - 1] == [] && Trusted(vs[..|vs| - 1]) == []
    ensures var n := |vs| - 1;
            more ==> (Fresh(vs, n) && last == vs[n - 1].pos + 1 && vs[n].prev == file[vs[n - 1].pos]) || (Seam(vs, n) && !Fresh(vs, n) && last == vs[n - 1].pos)
  {
    var n := |vs| - 1;
    more := 0 < n;
    if more {
      assert Shows(file, vs[n - 1]);
      assert Fresh(vs, n) || Seam(vs, n);
    }
  }

  /** Boundaries come out in file order. */
  lemma {:induction false} FoundInOrder(file: seq<byte>, vs: seq<Visit>, last: nat)
    requires Enumerates(file, vs, last)
    ensures var found := Run(START, vs).found;
            && (forall i, j | 0 <= i < j < |found| :: found[i].coff <= found[j].coff)
            && (forall i | 0 <= i < |found| :: found[i].coff <= last)
    decreases |vs|
  {
    hide Look, Run, Trusted, Enumerates;
    RunNone();
    var more := LastVisit(file, vs, last);
    OneMore(vs);
    if more {
      PrefixEnumerates(file, vs, last);
      FoundInOrder(file, vs[..|vs| - 1], vs[|vs| - 2].pos);
    }
  }

  /** Only a seam, where the byte before the buffer is unknown, can produce a
      boundary the naive search does not. */
  lemma {:induction false} UntrustedAtSeams(file: seq<byte>, vs: seq<Visit>, last: nat)
    requires Enumerates(file, vs, last)
    ensures var found := Run(START, vs).found;
            |found| == |Trusted(vs)| && forall i | 0 <= i < |found| && !Trusted(vs)[i] :: SeamByte(vs, found[i].coff)
    decreases |vs|
  {
    hide Look, Run, Trusted, Enumerates;
    RunNone();
    var n := |vs| - 1;
    var more := LastVisit(file, vs, last);
    OneMore(vs);
    if more {
      PrefixEnumerates(file, vs, last);
      UntrustedAtSeams(file, vs[..n], vs[n - 1].pos);
      forall p: nat | SeamByte(vs[..n], p)
        ensures SeamByte(vs, p)
      {
        SeamStays(vs, n, p);
      }
    }
  }

  lemma SeamStays(vs: seq<Visit>, n: nat, p: nat)
    requires n <= |vs| && SeamByte(vs[..n], p)
    ensures SeamByte(vs, p)
  {
    if p != 0 {
      var k: nat :| 0 < k < n && Seam(vs[..n], k) && vs[..n][k].pos == p;
      assert 1 < k ==> Fresh(vs[..n], k - 1) == Fresh(vs, k - 1);
      assert Seam(vs, k);
    }
  }

  lemma NaiveNothing(file: seq<byte>, q: nat)
    ensures NaiveSearch(file, q, q) == []
  {
  }

  lemma PrefixEnumerates(file: seq<byte>, vs: seq<Visit>, last: nat)
    requires Enumerates(file, vs, last) && 1 < |vs|
    ensures Enumerates(file, vs[..|vs| - 1], vs[|vs| - 2].pos)
  {
    var before := vs[..|vs| - 1];
    forall k: nat | 0 < k < |before|
      ensures Fresh(before, k) || Seam(before, k)
    {
      assert Fresh(vs, k) || Seam(vs, k);
      assert 1 < k ==> Fresh(before, k - 1) == Fresh(vs, k - 1);
    }
  }

  lemma {:induction false} NaiveFinds(file: seq<byte>, lo: nat, hi: nat, q: nat, magic: bv64)
    requires magic == BLOCK_MAGIC || magic == EOS_MAGIC
    ensures Hit(q, magic) in NaiveSearch(file, lo, hi) <==> lo <= q < hi && MagicAt(file, q, magic)
    decreases hi - lo
  {
    hide MagicAt, HitAt;
    if lo < hi {
      NaiveFinds(file, lo + 1, hi, q, magic);
      FoundHere(file, lo, q, magic);
    }
  }

  lemma FoundHere(file: seq<byte>, at: nat, q: nat, magic: bv64)
    requires magic == BLOCK_MAGIC || magic == EOS_MAGIC
    ensures Hit(q, magic) in HitAt(file, at) <==> q == at && MagicAt(file, at, magic)
  {
    hide MagicAt;
    NotBoth(file, at);
  }

  lemma NotBoth(file: seq<byte>, q: nat)
    ensures !MagicAt(file, q, BLOCK_MAGIC) || !MagicAt(file, q, EOS_MAGIC)
  {
    hide Bit, BitAt;
    MagicBits();
    if MagicAt(file, q, BLOCK_MAGIC) {
      assert BitAt(file, q + 2) == BitAt(BLOCK_BYTES, 2);
    }
    if MagicAt(file, q, EOS_MAGIC) {
      assert BitAt(file, q + 2) == BitAt(EOS_BYTES, 2);
    }
  }

  lemma MagicBits()
    ensures BitAt(BLOCK_BYTES, 2) && !BitAt(EOS_BYTES, 2)
  {
  }

  lemma {:induction false} ChosenFrom(found: seq<Boundary>, keep: seq<bool>, h: Hit)
    requires |found| == |keep| && h in Chosen(found, keep)
    ensures exists i :: 0 <= i < |found| && keep[i] && h == Hit(8 * found[i].coff - found[i].bits, found[i].magic)
    decreases |found|
  {
    var n := |found| - 1;
    if keep[n] && h == Hit(8 * found[n].coff - found[n].bits, found[n].magic) {
    } else {
      ChosenFrom(found[..n], keep[..n], h);
      var i :| 0 <= i < n && keep[..n][i] && h == Hit(8 * found[..n][i].coff - found[..n][i].bits, found[..n][i].magic);
      assert keep[i] && found[i] == found[..n][i];
    }
  }

  /** No block start is missed: every magic number past bit 0 whose first full
      byte is at least nine bytes from the end is reported, at its own offset. */
  lemma NothingMissed(file: seq<byte>, vs: seq<Visit>, last: nat, q: nat, magic: bv64)
    requires Enumerates(file, vs, last) && (magic == BLOCK_MAGIC || magic == EOS_MAGIC)
    requires 1 <= q <= 8 * last && MagicAt(file, q, magic)
    ensures Reports(Run(START, vs).found, q, magic)
  {
    hide MagicAt, Run, Chosen, Enumerates, Trusted, NaiveSearch;
    ScanRefinesNaive(file, vs, last);
    NaiveFinds(file, 1, 8 * last + 1, q, magic);
    ChosenFrom(Run(START, vs).found, Trusted(vs), Hit(q, magic));
  }

  // ----- The level byte -----

  /** How many of the visits from the `k`th on were returns to a seam. */
  ghost function Returns(vs: seq<Visit>, k: nat): nat
    requires 0 < k
    decreases |vs| - k
  {
    if |vs| <= k then 0 else (if vs[k].pos == vs[k - 1].pos then 1 else 0) + Returns(vs, k + 1)
  }

  ghost predicate NoEOS(v: Visit) {
    var m := Look(v.prev, v.window);
    m.Some? ==> m.value.magic != EOS_MAGIC
  }

  lemma NextVisit(file: seq<byte>, vs: seq<Visit>, last: nat, k: nat)
    requires Enumerates(file, vs, last) && k + 1 < |vs|
    ensures vs[k + 1].pos == vs[k].pos || vs[k + 1].pos == vs[k].pos + 1
    ensures vs[k + 1].pos < |file| && vs[k + 1].window[0] == file[vs[k + 1].pos] && vs[|vs| - 1].pos == last
  {
    assert Fresh(vs, k + 1) || Seam(vs, k + 1);
    assert Shows(file, vs[k + 1]);
  }

  /** After visit `k`, with `n` visits to go until the level, the level is read
      at visit `k + n`: `n` bytes on when no seam comes between, and one byte
      early for every seam that does. */
  lemma {:induction false} LevelRead(file: seq<byte>, vs: seq<Visit>, last: nat, k: nat, n: nat)
    requires Enumerates(file, vs, last) && 0 < n && k + n + 1 == |vs|
    requires Run(START, vs[..k + 1]).lcount == n
    requires forall i: nat | k < i < k + n :: NoEOS(vs[i])
    ensures last == vs[k].pos + n - Returns(vs, k + 1)
    ensures Run(START, vs).level == file[last]
    ensures last == vs[k].pos + n <==> Returns(vs, k + 1) == 0
    decreases n
  {
    hide Look, Run, Enumerates;
    RunOne(START, vs[..k + 1], vs[k + 1]);
    assert vs[..k + 1] + [vs[k + 1]] == vs[..k + 2];
    NextVisit(file, vs, last, k);
    if n == 1 {
      assert vs[..k + 2] == vs;
      assert Returns(vs, k + 2) == 0;
    } else {
      LevelRead(file, vs, last, k + 1, n - 1);
    }
  }

  /** No magic number has its first full byte in "BZh". */
  lemma NoMark(v: Visit)
    requires v.window[0] == 0x42 || v.window[0] == 0x5a || v.window[0] == 0x68
    ensures Look(v.prev, v.window) == None
  {
    hide Look, FirstFull;
    var m := Look(v.prev, v.window);
    if m.Some? {
      MatchFirst(v.prev, v.window, m.value.bits, m.value.magic);
      FirstBytes();
    }
  }
}
