/** What the seams between chunks do to the scan: which boundaries it reports
    twice, and when it misreads a level (`Bzip2File.cc`, lines 71 to 102). */
module Bzip2Seams {
  import opened Bits
  import opened Bzip2Format
  import opened Bzip2Scan
  import opened Wrappers

  // ----- Prefixes of a scan -----

  lemma EnumeratesPrefix(file: seq<byte>, vs: seq<Visit>, last: nat, n: nat)
    requires Enumerates(file, vs, last) && 0 < n <= |vs|
    ensures Enumerates(file, vs[..n], vs[n - 1].pos)
  {
    var before := vs[..n];
    forall k: nat | 0 < k < n
      ensures Fresh(before, k) || Seam(before, k)
    {
      assert Fresh(vs, k) || Seam(vs, k);
      assert 1 < k ==> Fresh(before, k - 1) == Fresh(vs, k - 1);
    }
  }

  /** The list only grows. */
  lemma {:induction false} FoundGrows(vs: seq<Visit>, n: nat)
    requires n <= |vs|
    ensures Run(START, vs[..n]).found <= Run(START, vs).found
    decreases |vs|
  {
    hide Run;
    if n == |vs| {
      assert vs[..n] == vs;
    } else {
      var before := vs[..|vs| - 1];
      assert before[..n] == vs[..n];
      FoundGrows(before, n);
      OneMore(vs);
    }
  }

  // ----- Candidates -----

  predicate IsMagic(magic: bv64) {
    magic == BLOCK_MAGIC || magic == EOS_MAGIC
  }

  predicate Spots(file: seq<byte>, b: Boundary, u: byte)
    requires b.coff + WORD <= |file|
  {
    Look(u, file[b.coff..b.coff + WORD]) == Some(Mark(b.magic, b.bits))
  }

  /** From the first full byte of `b` on, the file shows its magic number to a
      scan that takes some byte to come before. */
  ghost predicate SeenAs(file: seq<byte>, b: Boundary) {
    && IsMagic(b.magic) && b.bits < 8 && b.coff + WORD <= |file|
    && exists u :: Spots(file, b, u)
  }

  /** What the walk relies on: candidates are in file order and inside the file,
      no two different ones share their first full byte, and none is at byte 0. */
  ghost predicate Candidates(file: seq<byte>, bl: seq<Boundary>) {
    && (forall i | 0 <= i < |bl| :: SeenAs(file, bl[i]) && 0 < bl[i].coff)
    && (forall i, j | 0 <= i < j < |bl| :: bl[i].coff <= bl[j].coff)
    && (forall i, j | 0 <= i < j < |bl| :: bl[i].coff == bl[j].coff ==> bl[i].bits == bl[j].bits && bl[i].magic == bl[j].magic)
  }

  /** The first full byte of a boundary is one of the sixteen that a magic number can have. */
  ghost predicate Marked(file: seq<byte>, b: Boundary) {
    && IsMagic(b.magic) && b.bits < 8 && b.coff + WORD <= |file|
    && file[b.coff] as nat == FirstFull(BytesOf(b.magic), b.bits)
  }

  lemma SeenMarked(file: seq<byte>, b: Boundary)
    requires SeenAs(file, b)
    ensures Marked(file, b)
  {
    hide Look, FirstFull;
    var u :| Spots(file, b, u);
    MatchFirst(u, file[b.coff..b.coff + WORD], b.bits, b.magic);
  }

  /** One byte is the first full one of one magic number only. */
  lemma SameMark(file: seq<byte>, a: Boundary, b: Boundary)
    requires SeenAs(file, a) && SeenAs(file, b) && a.coff == b.coff
    ensures a.magic == b.magic && a.bits == b.bits
  {
    hide SeenAs, FirstFull;
    SeenMarked(file, a);
    SeenMarked(file, b);
    FirstBytesDistinct(a.magic, a.bits, b.magic, b.bits);
  }

  lemma {:induction false} FoundSeen(file: seq<byte>, vs: seq<Visit>, last: nat)
    requires Enumerates(file, vs, last)
    ensures forall b | b in Run(START, vs).found :: SeenAs(file, b)
    decreases |vs|
  {
    hide Look, Run, Enumerates, Trusted;
    RunNone();
    var more := LastVisit(file, vs, last);
    var n := |vs| - 1;
    OneMore(vs);
    if more {
      PrefixEnumerates(file, vs, last);
      FoundSeen(file, vs[..n], vs[n - 1].pos);
    }
    forall level, m | Look(vs[n].prev, vs[n].window) == Some(m)
      ensures SeenAs(file, Boundary(m.magic, level, last, m.bits))
    {
      assert Spots(file, Boundary(m.magic, level, last, m.bits), vs[n].prev);
    }
  }

  /** The scan of a file that begins with the magic "BZh" gives the walk what it relies on. */
  lemma ScanGivesCandidates(file: seq<byte>, vs: seq<Visit>, last: nat)
    requires Enumerates(file, vs, last) && 0 < |file| && file[0] == MAGIC[0]
    ensures Candidates(file, Run(START, vs).found)
  {
    hide Run, Enumerates, FirstFull, SeenAs;
    var bl := Run(START, vs).found;
    FoundSeen(file, vs, last);
    FoundInOrder(file, vs, last);
    forall i | 0 <= i < |bl|
      ensures SeenAs(file, bl[i]) && 0 < bl[i].coff
    {
      SeenMarked(file, bl[i]);
      FirstBytes();
    }
    forall i, j | 0 <= i < j < |bl| && bl[i].coff == bl[j].coff
      ensures bl[i].bits == bl[j].bits && bl[i].magic == bl[j].magic
    {
      SameMark(file, bl[i], bl[j]);
    }
  }

  // ----- Boundaries reported twice -----

  /** The scan goes back to byte `p`. */
  ghost predicate Returned(vs: seq<Visit>, p: nat) {
    exists k: nat :: 0 < k < |vs| && Seam(vs, k) && vs[k].pos == p
  }

  /** Only a seam makes the scan report a place twice. */
  lemma {:induction false} TwiceAtSeam(file: seq<byte>, vs: seq<Visit>, last: nat, i: nat, j: nat)
    requires Enumerates(file, vs, last) && i < j < |Run(START, vs).found|
    requires Run(START, vs).found[i].coff == Run(START, vs).found[j].coff
    ensures Returned(vs, Run(START, vs).found[i].coff)
    decreases |vs|
  {
    hide Look, Run, Enumerates, Trusted;
    RunNone();
    var more := LastVisit(file, vs, last);
    OneMore(vs);
    if more {
      var n := |vs| - 1;
      var before := vs[..n];
      PrefixEnumerates(file, vs, last);
      FoundInOrder(file, before, vs[n - 1].pos);
      if j < |Run(START, before).found| {
        TwiceAtSeam(file, before, vs[n - 1].pos, i, j);
        ReturnedMore(vs, n, Run(START, vs).found[i].coff);
      }
    }
  }

  lemma ReturnedMore(vs: seq<Visit>, n: nat, p: nat)
    requires n <= |vs| && Returned(vs[..n], p)
    ensures Returned(vs, p)
  {
    var k: nat :| 0 < k < n && Seam(vs[..n], k) && vs[..n][k].pos == p;
    assert 1 < k ==> Fresh(vs[..n], k - 1) == Fresh(vs, k - 1);
    assert Seam(vs, k);
  }

  /** A block that starts at the first bit of a byte the scan goes back to is
      reported twice, one report right after the other: the byte before it,
      unknown at the seam, plays no part. */
  lemma AlignedTwice(file: seq<byte>, vs: seq<Visit>, last: nat, p: nat, magic: bv64)
    requires Enumerates(file, vs, last) && Returned(vs, p) && IsMagic(magic) && MagicAt(file, 8 * p, magic)
    ensures var bl := Run(START, vs).found;
            exists i :: 0 <= i < |bl| - 1 && bl[i].coff == bl[i + 1].coff == p && bl[i].bits == bl[i + 1].bits == 0
                        && bl[i].magic == bl[i + 1].magic == magic
  {
    hide Look, Run, Trusted, MagicAt, Enumerates;
    var k := ReturnVisit(file, vs, last, p);
    SeenAligned(file, vs[k - 1], magic);
    SeenAligned(file, vs[k], magic);
    TwoReports(vs[..k + 1], p, magic);
    FoundGrows(vs, k + 1);
    var i := |Run(START, vs[..k - 1]).found|;
    assert vs[..k + 1][..k - 1] == vs[..k - 1];
    var two := Run(START, vs[..k + 1]).found;
    assert Run(START, vs).found[i] == two[i] && Run(START, vs).found[i + 1] == two[i + 1];
  }

  lemma ReturnVisit(file: seq<byte>, vs: seq<Visit>, last: nat, p: nat) returns (k: nat)
    requires Enumerates(file, vs, last) && Returned(vs, p)
    ensures 0 < k < |vs| && vs[k - 1].pos == vs[k].pos == p && Shows(file, vs[k - 1]) && Shows(file, vs[k])
  {
    k :| 0 < k < |vs| && Seam(vs, k) && vs[k].pos == p;
  }

  lemma TwoReports(vs: seq<Visit>, p: nat, magic: bv64)
    requires 2 <= |vs| && var n := |vs| - 2; forall v | v in vs[n..] :: v.pos == p && Look(v.prev, v.window) == Some(Mark(magic, 0))
    ensures var n, found := |vs| - 2, Run(START, vs).found; var i := |Run(START, vs[..n]).found|;
            |found| == i + 2 && found[i].coff == found[i + 1].coff == p && found[i].bits == found[i + 1].bits == 0
            && found[i].magic == found[i + 1].magic == magic
  {
    hide Look, Run, Trusted;
    var n := |vs| - 2;
    assert vs[n] == vs[n..][0] && vs[n + 1] == vs[n..][1];
    assert vs[..n + 1][..n] == vs[..n];
    OneMore(vs[..n + 1]);
    OneMore(vs);
  }

  lemma SeenAligned(file: seq<byte>, v: Visit, magic: bv64)
    requires Shows(file, v) && IsMagic(magic) && MagicAt(file, 8 * v.pos, magic)
    ensures Look(v.prev, v.window) == Some(Mark(magic, 0))
  {
    hide Look, MagicAt, Matches;
    MagicBytes(file, v.pos, 0, v.prev, magic);
    LookFinds(v.prev, v.window, 0, magic, 0);
  }

  /** When every read fills the buffer, the scan goes back to the multiples of
      4087, and to no other byte. */
  lemma FullReadSeams(file: seq<byte>, vs: seq<Visit>, last: nat, p: nat)
    requires Enumerates(file, vs, last) && FullReads(vs) && p < last
    ensures Returned(vs, p) <==> 0 < p && p % (PER_CHUNK - 1) == 0
  {
    hide Enumerates, FullReads, Fresh, Seam;
    if Returned(vs, p) {
      var k := ReturnVisit(file, vs, last, p);
      FullVisit(vs, k - 1);
      FullVisit(vs, k);
      NewChunk(k);
    }
    if 0 < p && p % (PER_CHUNK - 1) == 0 {
      var k := ChunkStart(p);
      LastPosition(file, vs, last);
      FullVisit(vs, |vs| - 1);
      Behind(|vs| - 1, k);
      FullVisit(vs, k - 1);
      FullVisit(vs, k);
      GoesBack(file, vs, last, k);
    }
  }

  lemma FullVisit(vs: seq<Visit>, k: nat)
    requires FullReads(vs) && k < |vs|
    ensures vs[k].pos == k - k / PER_CHUNK
  {
  }

  lemma LastPosition(file: seq<byte>, vs: seq<Visit>, last: nat)
    requires Enumerates(file, vs, last)
    ensures vs != [] && vs[|vs| - 1].pos == last
  {
  }

  lemma GoesBack(file: seq<byte>, vs: seq<Visit>, last: nat, k: nat)
    requires Enumerates(file, vs, last) && 0 < k < |vs| && vs[k].pos == vs[k - 1].pos
    ensures Returned(vs, vs[k].pos)
  {
    assert Fresh(vs, k) || Seam(vs, k);
  }

  lemma ChunkStart(p: nat) returns (k: nat)
    requires 0 < p && p % (PER_CHUNK - 1) == 0
    ensures 0 < k && k % PER_CHUNK == 0 && k - k / PER_CHUNK == p && k - 1 - (k - 1) / PER_CHUNK == p
  {
    var m := p / (PER_CHUNK - 1);
    k := m * PER_CHUNK;
    Quotient(k, m);
    Quotient(k - 1, m - 1);
  }

  /** Numbers `k` and `k - 1` count to different chunks exactly at a multiple. */
  lemma NewChunk(k: nat)
    requires 0 < k
    ensures k - k / PER_CHUNK == k - 1 - (k - 1) / PER_CHUNK ==> (k - k / PER_CHUNK) % (PER_CHUNK - 1) == 0 < k - k / PER_CHUNK
  {
  }

  lemma Behind(a: nat, k: nat)
    requires k % PER_CHUNK == 0 && k - k / PER_CHUNK < a - a / PER_CHUNK
    ensures k < a
  {
  }

  // ----- The level byte with full reads -----

  /** Whether the scan goes back to a byte within thirteen visits of one to
      byte `p`: a multiple of 4087 lies at most twelve bytes ahead, or `p` is one
      and has not been visited `again`. */
  predicate SeamAhead(p: nat, again: bool) {
    PER_CHUNK - AFTER_EOS <= p % (PER_CHUNK - 1) || (p % (PER_CHUNK - 1) == 0 && 0 < p && !again)
  }

  /** The first level of a file is the byte after "BZh" when reads are full. */
  lemma FirstLevel(file: seq<byte>, vs: seq<Visit>, last: nat)
    requires Enumerates(file, vs, last) && FullReads(vs) && 4 <= |vs| && file[..3] == MAGIC
    ensures Run(START, vs[..4]).level == file[3]
  {
    hide Look, Run, Enumerates, Returns, FullReads;
    FullVisit(vs, 0);
    FullVisit(vs, 1);
    FullVisit(vs, 2);
    FullVisit(vs, 3);
    Shown(file, vs, last, 0);
    Shown(file, vs, last, 1);
    Shown(file, vs, last, 2);
    assert file[0] == file[..3][0] && file[1] == file[..3][1] && file[2] == file[..3][2];
    NoMark(vs[0]);
    NoMark(vs[1]);
    NoMark(vs[2]);
    EnumeratesPrefix(file, vs, last, 4);
    var four := vs[..4];
    RunNone();
    RunOne(START, [], vs[0]);
    assert [] + [vs[0]] == four[..1];
    LevelRead(file, four, vs[3].pos, 0, 3);
  }

  lemma Shown(file: seq<byte>, vs: seq<Visit>, last: nat, k: nat)
    requires Enumerates(file, vs, last) && k < |vs|
    ensures Shows(file, vs[k])
  {
  }

  /** Visit `k` reports the end of a stream, and no later visit before the
      thirteenth does. */
  ghost predicate LastEOS(vs: seq<Visit>, k: nat) {
    && k + AFTER_EOS < |vs| && !NoEOS(vs[k])
    && forall i: nat | k < i < k + AFTER_EOS :: NoEOS(vs[i])
  }

  /** An end of stream in the file is reported by the visit to its first full byte. */
  lemma EOSSeen(file: seq<byte>, vs: seq<Visit>, last: nat, k: nat, b: nat)
    requires Enumerates(file, vs, last) && 0 < k < |vs| && Fresh(vs, k) && b < 8 && MagicAt(file, 8 * vs[k].pos - b, EOS_MAGIC)
    ensures !NoEOS(vs[k])
  {
    hide Look, MagicAt, Matches;
    assert Shows(file, vs[k]) && Shows(file, vs[k - 1]);
    MagicBytes(file, vs[k].pos, b, vs[k].prev, EOS_MAGIC);
    LookFinds(vs[k].prev, vs[k].window, b, EOS_MAGIC, 0);
  }

  /** With full reads, the level that follows an end of stream whose first full
      byte is at `p` is byte `p + 13`, where the next header has it, except near
      the end of a chunk: there it is the byte before. */
  lemma FullReadLevel(file: seq<byte>, vs: seq<Visit>, last: nat, k: nat)
    requires Enumerates(file, vs, last) && FullReads(vs) && LastEOS(vs, k)
    ensures var p := vs[k].pos;
            var at := if SeamAhead(p, 0 < k && vs[k - 1].pos == p) then p + AFTER_EOS - 1 else p + AFTER_EOS;
            at < |file| && Run(START, vs[..k + AFTER_EOS + 1]).level == file[at]
  {
    hide Look, Run, Enumerates, Returns, FullReads, NoEOS;
    var n := k + AFTER_EOS;
    var upTo := vs[..n + 1];
    EnumeratesPrefix(file, vs, last, n + 1);
    Shown(file, vs, last, n);
    CountsDown(vs, k);
    assert upTo[..k + 1] == vs[..k + 1];
    LevelRead(file, upTo, vs[n].pos, k, AFTER_EOS);
    FullVisit(vs, k);
    FullVisit(vs, n);
    if 0 < k {
      FullVisit(vs, k - 1);
    }
    Thirteen(k);
  }

  lemma CountsDown(vs: seq<Visit>, k: nat)
    requires k < |vs| && !NoEOS(vs[k])
    ensures Run(START, vs[..k + 1]).lcount == AFTER_EOS
  {
    hide Look;
    assert vs[..k + 1][..k] == vs[..k];
    RunOne(START, vs[..k], vs[k]);
    assert vs[..k] + [vs[k]] == vs[..k + 1];
  }

  lemma Thirteen(k: nat)
    ensures var p := k - k / PER_CHUNK;
            var again := 0 < k && k - 1 - (k - 1) / PER_CHUNK == p;
            k + AFTER_EOS - (k + AFTER_EOS) / PER_CHUNK == if SeamAhead(p, again) then p + AFTER_EOS - 1 else p + AFTER_EOS
  {
    var m := k / PER_CHUNK;
    var t := k - m * PER_CHUNK;
    Quotient(k, m);
    if t + AFTER_EOS < PER_CHUNK {
      Quotient(k + AFTER_EOS, m);
    } else {
      Quotient(k + AFTER_EOS, m + 1);
    }
    if 0 < t {
      Quotient(k - 1, m);
    } else if 0 < k {
      Quotient(k - 1, m - 1);
    }
    Remainder(m * (PER_CHUNK - 1) + t, m, t);
  }

  lemma Remainder(p: nat, m: nat, t: nat)
    requires p == m * (PER_CHUNK - 1) + t && t < PER_CHUNK
    ensures p % (PER_CHUNK - 1) == if t == PER_CHUNK - 1 then 0 else t
  {
  }

  /** So a stream that follows another near the end of a chunk has its level
      read as 'h', the byte before, although every read is full. */
  lemma LevelMissed(file: seq<byte>, vs: seq<Visit>, last: nat, k: nat)
    requires Enumerates(file, vs, last) && FullReads(vs) && LastEOS(vs, k)
    requires SeamAhead(vs[k].pos, 0 < k && vs[k - 1].pos == vs[k].pos)
    requires var next := vs[k].pos + 10; next + 3 <= |file| && file[next..next + 3] == MAGIC
    ensures Run(START, vs[..k + AFTER_EOS + 1]).level == 0x68
  {
    hide Run, Enumerates, FullReads, SeamAhead, NoEOS;
    FullReadLevel(file, vs, last, k);
    var next := vs[k].pos + 10;
    assert file[next + 2] == file[next..next + 3][2];
  }
}
