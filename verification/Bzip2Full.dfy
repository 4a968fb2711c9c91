/** Indexing a bzip2 file when every read fills the buffer: where the seams lie
    is then known, and so is all that goes wrong at them. */
module Bzip2Full {
  import opened Bits
  import opened Blocks
  import opened Bzip2Format
  import opened Bzip2Gap
  import opened Bzip2Index
  import opened Bzip2Recover
  import opened Bzip2Scan
  import opened Bzip2Seams
  import opened Wrappers

  // ----- Which visits are to which byte -----

  /** The byte that visit `k` is to. */
  function At(k: nat): nat {
    k - k / PER_CHUNK
  }

  function LastVisitTo(p: nat): nat {
    p + p / (PER_CHUNK - 1)
  }

  function FirstVisitTo(p: nat): nat {
    if 0 < p && p % (PER_CHUNK - 1) == 0 then LastVisitTo(p) - 1 else LastVisitTo(p)
  }

  lemma VisitsTo(p: nat)
    ensures At(FirstVisitTo(p)) == At(LastVisitTo(p)) == p && At(LastVisitTo(p) + 1) == p + 1
    ensures 0 < p ==> 0 < FirstVisitTo(p) && At(FirstVisitTo(p) - 1) == p - 1
  {
    var m, k := p / (PER_CHUNK - 1), LastVisitTo(p);
    Quotient(k, m);
    Quotient(k + 1, m);
    if 0 < p {
      if p % (PER_CHUNK - 1) == 0 {
        Quotient(k - 1, m - 1);
        Quotient(k - 2, m - 1);
      } else {
        Quotient(k - 1, m);
      }
    }
  }

  lemma AtMonotone(a: nat, b: nat)
    requires a <= b
    ensures At(a) <= At(b) <= At(a) + b - a
  {
  }

  lemma Visited(file: seq<byte>, vs: seq<Visit>, last: nat, p: nat)
    requires Enumerates(file, vs, last) && FullReads(vs) && p <= last
    ensures FirstVisitTo(p) < |vs| && vs[FirstVisitTo(p)].pos == p
    ensures p < last ==> LastVisitTo(p) < |vs| && vs[LastVisitTo(p)].pos == p
  {
    hide Enumerates, FullReads, At, FirstVisitTo, LastVisitTo;
    LastPosition(file, vs, last);
    FullPos(vs, |vs| - 1);
    VisitsTo(p);
    if p == 0 {
      FirstOfAll();
    } else if |vs| <= FirstVisitTo(p) {
      AtMonotone(|vs| - 1, FirstVisitTo(p) - 1);
    }
    if p < last && |vs| <= LastVisitTo(p) {
      AtMonotone(|vs| - 1, LastVisitTo(p));
    }
    FullPos(vs, FirstVisitTo(p));
    if p < last {
      FullPos(vs, LastVisitTo(p));
    }
  }

  lemma FirstOfAll()
    ensures FirstVisitTo(0) == LastVisitTo(0) == 0
  {
  }

  lemma FullPos(vs: seq<Visit>, k: nat)
    requires FullReads(vs) && k < |vs|
    ensures vs[k].pos == At(k)
  {
  }

  // ----- Which bytes the scan goes back to -----

  predicate Overlaps(p: nat) {
    0 < p && p % (PER_CHUNK - 1) == 0
  }

  /** The multiples of 4087 before byte `last`. */
  ghost function Multiples(last: nat): iset<nat> {
    iset p: nat | p < last && Overlaps(p)
  }

  /** The scan has not just gone back. */
  ghost predicate EndsFresh(vs: seq<Visit>) {
    1 < |vs| ==> Fresh(vs, |vs| - 1)
  }

  lemma FullReadsBack(file: seq<byte>, vs: seq<Visit>, last: nat)
    requires Enumerates(file, vs, last) && FullReads(vs) && EndsFresh(vs)
    ensures GoneBack(vs) == Multiples(last)
  {
    hide Enumerates, FullReads, Returned, Seam;
    forall p: nat
      ensures p in GoneBack(vs) <==> p in Multiples(last)
    {
      if p < last {
        FullReadSeams(file, vs, last, p);
      } else if Returned(vs, p) {
        var k := ReturnVisit(file, vs, last, p);
        NoLater(file, vs, last, k);
        LastPosition(file, vs, last);
        FullPos(vs, k - 1);
        FullPos(vs, |vs| - 2);
        AtMonotone(k - 1, |vs| - 2);
      }
    }
  }

  // ----- The level of a stream that follows another -----

  /** The level after an end of stream at `e` is read a byte early: a multiple
      of 4087 lies at most twelve bytes ahead, or `e` is at one and not reported
      when the scan goes back to it. */
  ghost predicate EndsBadly(vs: seq<Visit>, e: Boundary) {
    LastVisitTo(e.coff) < |vs| && SeamAhead(e.coff, !NoEOS(vs[LastVisitTo(e.coff)]))
  }

  /** The last visit that reports an end of stream at `e`. */
  ghost function EOSVisit(vs: seq<Visit>, e: Boundary): nat
    requires LastVisitTo(e.coff) < |vs|
  {
    if NoEOS(vs[LastVisitTo(e.coff)]) then FirstVisitTo(e.coff) else LastVisitTo(e.coff)
  }

  lemma FirstIsFresh(file: seq<byte>, vs: seq<Visit>, last: nat, p: nat)
    requires Enumerates(file, vs, last) && FullReads(vs) && 0 < p <= last
    ensures 0 < FirstVisitTo(p) < |vs| && vs[FirstVisitTo(p)].pos == p && Fresh(vs, FirstVisitTo(p))
  {
    hide Enumerates, FullReads, At, FirstVisitTo, LastVisitTo, Fresh;
    Visited(file, vs, last, p);
    VisitsTo(p);
    FullPos(vs, FirstVisitTo(p) - 1);
    MovesOn(file, vs, last, FirstVisitTo(p));
  }

  lemma MovesOn(file: seq<byte>, vs: seq<Visit>, last: nat, k: nat)
    requires Enumerates(file, vs, last) && 0 < k < |vs| && vs[k].pos != vs[k - 1].pos
    ensures Fresh(vs, k)
  {
    assert Fresh(vs, k) || Seam(vs, k);
  }

  /** No visit in the gap reports anything. */
  lemma GapVisit(file: seq<byte>, vs: seq<Visit>, last: nat, e: Boundary, t: Boundary, i: nat)
    requires Enumerates(file, vs, last) && FullReads(vs) && HasHeader(file) && TrueEOS(file, e) && StreamFollows(file, e, t)
    requires LastVisitTo(e.coff) < i < |vs| && At(i) < t.coff
    ensures Look(vs[i].prev, vs[i].window) == None && NoEOS(vs[i])
  {
    hide Enumerates, FullReads, At, LastVisitTo, SeenAs, MagicAt, StreamFollows, Look, GoneBack;
    HeaderBytes(file);
    VisitsTo(e.coff);
    AtMonotone(LastVisitTo(e.coff) + 1, i);
    FullPos(vs, i);
    var m := Look(vs[i].prev, vs[i].window);
    if m.Some? {
      VisitPossible(file, vs, last, i, m.value, 0);
      GapQuiet(file, e, t, Boundary(m.value.magic, 0, vs[i].pos, m.value.bits));
    }
  }

  /** The last report of an end of stream is the last before the level is read. */
  lemma EOSIsLast(file: seq<byte>, vs: seq<Visit>, last: nat, e: Boundary, t: Boundary)
    requires Enumerates(file, vs, last) && FullReads(vs) && HasHeader(file) && TrueEOS(file, e) && StreamFollows(file, e, t)
    requires t.coff <= last
    ensures LastVisitTo(e.coff) < |vs|
    ensures var k := EOSVisit(vs, e);
            && k + AFTER_EOS < FirstVisitTo(t.coff) < |vs|
            && vs[k].pos == e.coff && LastEOS(vs, k)
            && SeamAhead(e.coff, 0 < k && vs[k - 1].pos == e.coff) == EndsBadly(vs, e)
    ensures forall i: nat | EOSVisit(vs, e) < i < FirstVisitTo(t.coff) :: NoEOS(vs[i])
  {
    hide Enumerates, FullReads, At, Look, NoEOS, MagicAt, GoneBack;
    var p, q := e.coff, t.coff;
    Visited(file, vs, last, p);
    FirstIsFresh(file, vs, last, p);
    FirstIsFresh(file, vs, last, q);
    EOSSeen(file, vs, last, FirstVisitTo(p), e.bits);
    var k := EOSVisit(vs, e);
    VisitsTo(p);
    VisitsTo(q);
    FullPos(vs, k - 1);
    LaterVisit(p, q);
    forall i: nat | k < i < FirstVisitTo(q)
      ensures NoEOS(vs[i])
    {
      if i != LastVisitTo(p) {
        AtMonotone(i, FirstVisitTo(q) - 1);
        GapVisit(file, vs, last, e, t, i);
      }
    }
  }

  lemma LaterVisit(p: nat, q: nat)
    requires p < q
    ensures LastVisitTo(p) + q - p <= FirstVisitTo(q)
  {
  }

  /** Without another end of stream, the count runs down and the level stays. */
  lemma {:induction false} Counted(vs: seq<Visit>, k: nat, n: nat, m: nat)
    requires k <= m < |vs| && 0 < n && Run(START, vs[..k + 1]).lcount == n
    requires forall i: nat | k < i <= m :: NoEOS(vs[i])
    ensures Run(START, vs[..m + 1]).lcount == if m < k + n then k + n - m else 0
    ensures k + n <= m ==> Run(START, vs[..m + 1]).level == Run(START, vs[..k + n + 1]).level
    decreases m - k
  {
    hide Look, Run;
    if k < m {
      Counted(vs, k, n, m - 1);
      RunOne(START, vs[..m], vs[m]);
      assert vs[..m] + [vs[m]] == vs[..m + 1];
    }
  }

  /** A report after the count has run out has the level read then. */
  lemma LevelThen(vs: seq<Visit>, k: nat, n: nat, m: nat)
    requires k + n < m < |vs| && 0 < n && Run(START, vs[..k + 1]).lcount == n
    requires forall i: nat | k < i < m :: NoEOS(vs[i])
    ensures Run(START, vs[..m + 1]).level == Run(START, vs[..k + n + 1]).level
  {
    hide Look, Run;
    Counted(vs, k, n, m - 1);
    RunOne(START, vs[..m], vs[m]);
    assert vs[..m] + [vs[m]] == vs[..m + 1];
  }

  /** The first report of a byte is made by the first visit to it. */
  lemma FirstReport(file: seq<byte>, vs: seq<Visit>, last: nat, t: Boundary)
    requires Enumerates(file, vs, last) && FullReads(vs) && IsMagic(t.magic) && t.bits < 8 && 0 < t.coff <= last
    requires MagicAt(file, 8 * t.coff - t.bits, t.magic)
    ensures FirstVisitTo(t.coff) < |vs|
    ensures LevelOf(Run(START, vs).found, t.coff, t.level) == Run(START, vs[..FirstVisitTo(t.coff) + 1]).level
  {
    hide Enumerates, FullReads, At, FirstVisitTo, Look, Run, Trusted, MagicAt, Fresh, LevelOf;
    var k := FirstVisitTo(t.coff);
    FirstIsFresh(file, vs, last, t.coff);
    VisitsTo(t.coff);
    FullPos(vs, k - 1);
    MagicSeen(file, vs, last, k, t);
    var before, upTo := vs[..k], vs[..k + 1];
    assert upTo[..k] == before && upTo[k] == vs[k];
    OneMore(upTo);
    EnumeratesPrefix(file, vs, last, k);
    FoundInOrder(file, before, vs[k - 1].pos);
    FoundGrows(vs, k + 1);
    var found := Run(START, vs).found;
    var j := |Run(START, before).found|;
    LevelAtFirst(found, t.coff, t.level, j);
  }

  lemma MagicSeen(file: seq<byte>, vs: seq<Visit>, last: nat, k: nat, t: Boundary)
    requires Enumerates(file, vs, last) && 0 < k < |vs| && Fresh(vs, k) && vs[k].pos == t.coff
    requires IsMagic(t.magic) && t.bits < 8 && 0 < t.coff && MagicAt(file, 8 * t.coff - t.bits, t.magic)
    ensures Look(vs[k].prev, vs[k].window) == Some(Mark(t.magic, t.bits))
  {
    hide Look, MagicAt, Matches;
    assert Shows(file, vs[k]) && Shows(file, vs[k - 1]);
    MagicBytes(file, t.coff, t.bits, vs[k].prev, t.magic);
    LookFinds(vs[k].prev, vs[k].window, t.bits, t.magic, 0);
  }

  lemma {:induction false} LevelAtFirst(bl: seq<Boundary>, p: nat, level: byte, j: nat)
    requires j < |bl| && bl[j].coff == p && forall i | 0 <= i < j :: bl[i].coff != p
    ensures LevelOf(bl, p, level) == bl[j].level
    decreases j
  {
    if 0 < j {
      LevelAtFirst(bl[1..], p, level, j - 1);
    }
  }

  /** The scan has the level of a stream that follows another right, or, where
      the one before ends badly, as the 'h' before it. */
  lemma NextLevel(file: seq<byte>, vs: seq<Visit>, last: nat, e: Boundary, t: Boundary)
    requires Enumerates(file, vs, last) && FullReads(vs) && HasHeader(file) && TrueEOS(file, e)
    requires StreamFollows(file, e, t) && t.coff <= last
    ensures Read(Run(START, vs).found, t).level == if EndsBadly(vs, e) then 0x68 else t.level
  {
    hide Enumerates, FullReads, FirstVisitTo, LastVisitTo, Look, Run, NoEOS, MagicAt, GoneBack, LevelOf, EndsBadly, EOSVisit, SeamAhead;
    EOSIsLast(file, vs, last, e, t);
    var k, m := EOSVisit(vs, e), FirstVisitTo(t.coff);
    FirstReport(file, vs, last, t);
    CountsDown(vs, k);
    LevelThen(vs, k, AFTER_EOS, m);
    FullReadLevel(file, vs, last, k);
    SameBytes(file, e.coff);
  }

  /** Before the first block there is nothing to report. */
  lemma HeaderQuiet(file: seq<byte>, b: Boundary)
    requires HasHeader(file) && SeenAs(file, b) && 0 < b.coff
    ensures 4 <= b.coff
  {
    hide SeenAs, FirstFull;
    HeaderBytes(file);
    FirstBytes();
    SeenMarked(file, b);
    if b.coff == 3 {
      AtThree(file, b);
    }
  }

  /** The scan has the level of the first stream right. */
  lemma FirstLevelRead(file: seq<byte>, vs: seq<Visit>, last: nat)
    requires Enumerates(file, vs, last) && FullReads(vs) && HasHeader(file) && 4 <= last
    ensures Read(Run(START, vs).found, First(file)) == First(file)
  {
    hide Enumerates, Look, Run, MagicAt, LevelOf, SeenAs, FullReads;
    var first := First(file);
    HeaderBytes(file);
    FirstReport(file, vs, last, first);
    FourthVisit();
    FirstLevel(file, vs, last);
    forall i: nat | i < 4
      ensures Look(vs[i].prev, vs[i].window) == None && NoEOS(vs[i])
    {
      FullPos(vs, i);
      Shown(file, vs, last, i);
      if i == 3 {
        var m := Look(vs[i].prev, vs[i].window);
        if m.Some? {
          VisitPossible(file, vs, last, i, m.value, 0);
          HeaderQuiet(file, Boundary(m.value.magic, 0, vs[i].pos, m.value.bits));
        }
      } else {
        NoMark(vs[i]);
      }
    }
    RunNone();
    RunOne(START, [], vs[0]);
    assert [] + [vs[0]] == vs[..1];
    LevelThen(vs, 0, 3, 4);
  }

  lemma FourthVisit()
    ensures FirstVisitTo(4) == 4 && At(0) == 0 && At(1) == 1 && At(2) == 2 && At(3) == 3
  {
  }

  // ----- What is indexed -----

  /** The true boundaries up to the first block of a stream that follows one that ends badly. */
  ghost function UpTo(vs: seq<Visit>, cur: Boundary, truth: seq<Boundary>): seq<Boundary>
    decreases |truth|
  {
    if truth == [] then []
    else if cur.magic == EOS_MAGIC && truth[0].magic != EOS_MAGIC && EndsBadly(vs, cur) then [truth[0]]
    else [truth[0]] + UpTo(vs, truth[0], truth[1..])
  }

  lemma {:induction false} UpToPrefix(vs: seq<Visit>, cur: Boundary, truth: seq<Boundary>)
    ensures UpTo(vs, cur, truth) <= truth
    decreases |truth|
  {
    hide EndsBadly;
    if truth != [] {
      UpToPrefix(vs, truth[0], truth[1..]);
    }
  }

  /** So it is a stream after one that ends badly whose level is misread, and
      no other; and what is read is no level. */
  lemma {:induction false} CutIs(file: seq<byte>, vs: seq<Visit>, last: nat, unpack: Unpack, cur: Boundary, level: byte, truth: seq<Boundary>)
    requires Enumerates(file, vs, last) && FullReads(vs) && HasHeader(file) && Known(file, cur) && LevelKnown(cur, level)
    requires Layout(file, last, GoneBack(vs), unpack, cur, level, truth) && !Misread(Run(START, vs).found, cur, level)
    ensures Cut(Run(START, vs).found, cur, level, truth) == UpTo(vs, cur, truth)
    ensures NoOtherLevel(Run(START, vs).found, cur, level, truth)
    decreases |truth|
  {
    hide Enumerates, FullReads, Run, MagicAt, Barren, GoneBack, Read, EndsBadly, Possible;
    if truth != [] {
      var next, level' := truth[0], LevelAfter(cur, level, truth[0]);
      if cur.magic == EOS_MAGIC {
        NextLevel(file, vs, last, cur, next);
      }
      if !Misread(Run(START, vs).found, next, level') {
        CutIs(file, vs, last, unpack, next, level', truth[1..]);
      }
    }
  }

  /** The index of a file with these true boundaries. */
  ghost function Outcome(back: iset<nat>, unpack: Unpack, first: Boundary, truth: seq<Boundary>): Option<seq<Bzip2Record>> {
    if AtSeam(back, first, truth) then None else Some(BlocksOf(unpack, first, 0, truth, 0))
  }

  /** A stream of at least one whole block follows one that ends badly. */
  ghost predicate Misses(vs: seq<Visit>, cur: Boundary, truth: seq<Boundary>)
    decreases |truth|
  {
    truth != [] &&
      ((cur.magic == EOS_MAGIC && truth[0].magic != EOS_MAGIC && EndsBadly(vs, cur) && 1 < |truth|) || Misses(vs, truth[0], truth[1..]))
  }

  /** With full reads, the index has every true block if and only if none starts
      at the first bit of a multiple of 4087 and no stream follows one that ends
      badly. Otherwise there is no index, or one that lacks the last blocks. */
  lemma AllIndexed(vs: seq<Visit>, last: nat, unpack: Unpack, first: Boundary, truth: seq<Boundary>)
    requires first.magic != EOS_MAGIC
    ensures var index, all := Outcome(Multiples(last), unpack, first, UpTo(vs, first, truth)), BlocksOf(unpack, first, 0, truth, 0);
            && (index == Some(all) <==> !AtSeam(Multiples(last), first, truth) && !Misses(vs, first, truth))
            && (index != Some(all) ==> index == None || index.value < all)
  {
    hide Multiples, EndsBadly, AtSeam, BlocksOf, UpTo, Misses;
    NoneMissed(vs, unpack, first, 0, truth, 0);
  }

  lemma {:induction false} NoneMissed(vs: seq<Visit>, unpack: Unpack, cur: Boundary, level: byte, truth: seq<Boundary>, uoff: nat)
    ensures !Misses(vs, cur, truth) ==> UpTo(vs, cur, truth) == truth
    ensures Misses(vs, cur, truth) ==> BlocksOf(unpack, cur, level, UpTo(vs, cur, truth), uoff) < BlocksOf(unpack, cur, level, truth, uoff)
    decreases |truth|
  {
    hide EndsBadly, BlocksOf, MakeBlock;
    if truth != [] {
      var next, level' := truth[0], LevelAfter(cur, level, truth[0]);
      var upTo := UpTo(vs, cur, truth);
      BlocksOfStep(unpack, cur, level, truth, uoff);
      BlocksOfStep(unpack, cur, level, upTo, uoff);
      if cur.magic == EOS_MAGIC && next.magic != EOS_MAGIC && EndsBadly(vs, cur) {
        NoBlocks(unpack, next, level', uoff);
        assert upTo[1..] == [];
        if |truth| == 1 {
          assert truth[1..] == [] && !Misses(vs, next, []);
        } else {
          BlocksOfStep(unpack, next, level', truth[1..], uoff);
        }
      } else {
        var usize := SizeOf(unpack, RangeOf(LevelAt(cur, level), cur, next));
        NoneMissed(vs, unpack, next, level', truth[1..], if cur.magic == EOS_MAGIC then uoff else uoff + usize);
        assert upTo[1..] == UpTo(vs, next, truth[1..]);
      }
    }
  }

  /** A file of two streams of one block, the first of which ends at most twelve
      bytes before a multiple of 4087: only its first block is indexed. */
  lemma SecondStreamLost(file: seq<byte>, vs: seq<Visit>, last: nat, unpack: Unpack, e: Boundary, t: Boundary, e2: Boundary)
    requires Enumerates(file, vs, last) && FullReads(vs) && Truth(file, last, Multiples(last), unpack, [e, t, e2])
    requires e.magic == EOS_MAGIC && t.magic == BLOCK_MAGIC && PER_CHUNK - AFTER_EOS <= e.coff % (PER_CHUNK - 1)
    ensures |BlocksOf(unpack, First(file), 0, [e, t, e2], 0)| == 2
    ensures Outcome(Multiples(last), unpack, First(file), UpTo(vs, First(file), [e, t, e2]))
            == Some(BlocksOf(unpack, First(file), 0, [e, t, e2], 0)[..1])
  {
    hide Enumerates, FullReads, MagicAt, Layout, BlocksOf, MakeBlock, LastVisitTo, NoEOS, StreamFollows, AtSeam, Multiples;
    var first, truth, up := First(file), [e, t, e2], [e, t];
    TwoStreams(file, last, unpack, e, t, e2);
    Visited(file, vs, last, e.coff);
    assert truth[1..] == [t, e2] && up[1..] == [t];
    assert UpTo(vs, e, [t, e2]) == [t];
    assert UpTo(vs, first, truth) == up;
    var level := LevelAfter(first, 0, e);
    var size, level' := SizeOf(unpack, RangeOf(LevelAt(first, 0), first, e)), LevelAfter(e, level, t);
    BlocksOfStep(unpack, first, 0, truth, 0);
    BlocksOfStep(unpack, e, level, [t, e2], size);
    BlocksOfStep(unpack, t, level', [e2], size);
    BlocksOfStep(unpack, first, 0, up, 0);
    BlocksOfStep(unpack, e, level, [t], size);
    assert [t, e2][1..] == [e2] && [e2][1..] == [] && [t][1..] == [];
    NoBlocks(unpack, t, level', size);
    NoBlocks(unpack, e2, LevelAfter(t, level', e2), size + SizeOf(unpack, RangeOf(LevelAt(t, level'), t, e2)));
    NoSeam(last, first, e, t);
    assert BlocksOf(unpack, first, 0, up, 0) == [MakeBlock(first, e, 0, size, LevelAt(first, 0))];
  }

  lemma NoSeam(last: nat, first: Boundary, e: Boundary, t: Boundary)
    requires first.coff == 4 && e.magic == EOS_MAGIC && t.coff == e.coff + AFTER_EOS + 1
    requires PER_CHUNK - AFTER_EOS <= e.coff % (PER_CHUNK - 1)
    ensures !AtSeam(Multiples(last), first, [e, t])
  {
    assert !Overlaps(t.coff);
    assert forall b | b in [first] + [e, t] && b.magic != EOS_MAGIC :: b == first || b == t;
  }

  lemma TwoStreams(file: seq<byte>, last: nat, unpack: Unpack, e: Boundary, t: Boundary, e2: Boundary)
    requires Truth(file, last, Multiples(last), unpack, [e, t, e2]) && e.magic == EOS_MAGIC && t.magic == BLOCK_MAGIC
    ensures 4 < e.coff && t.coff == e.coff + AFTER_EOS + 1 && t.coff < last
  {
    hide MagicAt, Barren, Layout;
    var first, truth, back := First(file), [e, t, e2], Multiples(last);
    var level := LevelAfter(first, 0, e);
    LayoutRest(file, last, back, unpack, first, 0, truth);
    assert truth[1..] == [t, e2] && [t, e2][1..] == [e2];
    LayoutRest(file, last, back, unpack, e, level, [t, e2]);
    LayoutRest(file, last, back, unpack, t, LevelAfter(e, level, t), [e2]);
  }

  lemma LayoutRest(file: seq<byte>, last: nat, back: iset<nat>, unpack: Unpack, cur: Boundary, level: byte, truth: seq<Boundary>)
    requires Layout(file, last, back, unpack, cur, level, truth) && truth != []
    ensures cur.coff < truth[0].coff <= last && (cur.magic == EOS_MAGIC ==> StreamFollows(file, cur, truth[0]))
    ensures Layout(file, last, back, unpack, truth[0], LevelAfter(cur, level, truth[0]), truth[1..])
  {
    hide MagicAt, Barren, StreamFollows;
  }

  /** Indexing a file, from its bytes and the library. Whatever the reads deliver,
      the index has exactly the true blocks of the streams before any whose level
      is misread as none, unless one of these blocks starts at the first bit of a
      byte the scan goes back to: then there is no index. With full reads, the
      scan goes back to the multiples of 4087, and the level misread is that of a
      stream after one that ends badly. */
  method IndexFile(file: seq<byte>, lib: Library, full: bool, ghost unpack: Unpack)
    returns (index: Option<seq<Bzip2Record>>, ghost vs: seq<Visit>)
    requires HasHeader(file) && 4 + WORD < |file| && Answers(file, lib, unpack) && NoZeroSums(file, unpack) && NeedsLevel(unpack)
    ensures Enumerates(file, vs, |file| - WORD - 1) && EndsFresh(vs) && (full ==> FullReads(vs))
    ensures forall truth | Truth(file, |file| - WORD - 1, GoneBack(vs), unpack, truth) ::
              NoOtherLevel(Run(START, vs).found, First(file), 0, truth) ==>
                index == Outcome(GoneBack(vs), unpack, First(file), Cut(Run(START, vs).found, First(file), 0, truth))
    ensures full ==> forall truth | Truth(file, |file| - WORD - 1, Multiples(|file| - WORD - 1), unpack, truth) ::
              && index == Outcome(Multiples(|file| - WORD - 1), unpack, First(file), UpTo(vs, First(file), truth))
              && (index == Some(BlocksOf(unpack, First(file), 0, truth, 0)) <==>
                    !AtSeam(Multiples(|file| - WORD - 1), First(file), truth) && !Misses(vs, First(file), truth))
  {
    hide Run, Enumerates, FullReads, Answers, NoZeroSums, NeedsLevel, Truth, Stops, BlocksOf, AtSeam, NoOtherLevel, Cut, Fresh, GoneBack, Multiples, UpTo, Misses, Outcome;
    var cands;
    cands, vs := FindBlockBoundaryCandidates(file, full);
    ghost var last := |file| - WORD - 1;
    HeaderBytes(file);
    FirstFound(file, vs, last);
    ScanGivesCandidates(file, vs, last);
    var bl;
    index, bl := BuildIndex(file, cands, lib, unpack);
    ghost var first := cands[0];
    if index.Some? {
      assert bl[1..] == Greedy(unpack, first, first.level, cands[1..]);
    }
    AnswersEmpty(file, lib, unpack);
    forall truth | Truth(file, last, GoneBack(vs), unpack, truth) && NoOtherLevel(Run(START, vs).found, First(file), 0, truth)
      ensures index == Outcome(GoneBack(vs), unpack, First(file), Cut(Run(START, vs).found, First(file), 0, truth))
    {
      Recovered(file, vs, last, unpack, truth);
      OutcomeIs(GoneBack(vs), unpack, First(file), Cut(Run(START, vs).found, First(file), 0, truth));
    }
    if full {
      FullReadsBack(file, vs, last);
      forall truth | Truth(file, last, GoneBack(vs), unpack, truth)
        ensures index == Outcome(GoneBack(vs), unpack, First(file), UpTo(vs, First(file), truth))
      {
        FullCut(file, vs, last, unpack, truth);
      }
      forall truth
        ensures Outcome(Multiples(last), unpack, First(file), UpTo(vs, First(file), truth)) == Some(BlocksOf(unpack, First(file), 0, truth, 0))
                <==> !AtSeam(Multiples(last), First(file), truth) && !Misses(vs, First(file), truth)
      {
        AllIndexed(vs, last, unpack, First(file), truth);
      }
    }
  }

  lemma OutcomeIs(back: iset<nat>, unpack: Unpack, first: Boundary, truth: seq<Boundary>)
    ensures Outcome(back, unpack, first, truth) == if AtSeam(back, first, truth) then None else Some(BlocksOf(unpack, first, 0, truth, 0))
  {
    hide AtSeam, BlocksOf;
  }

  lemma AnswersEmpty(file: seq<byte>, lib: Library, unpack: Unpack)
    requires Answers(file, lib, unpack)
    ensures RejectsEmptyRange(unpack)
  {
  }

  lemma FullCut(file: seq<byte>, vs: seq<Visit>, last: nat, unpack: Unpack, truth: seq<Boundary>)
    requires Enumerates(file, vs, last) && FullReads(vs) && 4 <= last && Truth(file, last, GoneBack(vs), unpack, truth)
    ensures Cut(Run(START, vs).found, First(file), 0, truth) == UpTo(vs, First(file), truth)
    ensures NoOtherLevel(Run(START, vs).found, First(file), 0, truth)
  {
    hide Enumerates, FullReads, Run, MagicAt, GoneBack, Layout, Read;
    HeaderBytes(file);
    FirstLevelRead(file, vs, last);
    CutIs(file, vs, last, unpack, First(file), 0, truth);
  }
}
