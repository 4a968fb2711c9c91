/** Indexing a bzip2 file from end to end: the scan, then the walk over what it
    reports (`Bzip2File::buildIndex`). */
module Bzip2Recover {
  import opened Bits
  import opened Blocks
  import opened Bzip2Format
  import opened Bzip2Gap
  import opened Bzip2Index
  import opened Bzip2Scan
  import opened Bzip2Seams
  import opened Wrappers

  // ----- What the scan may report -----

  /** The bytes the scan goes back to. */
  ghost function GoneBack(vs: seq<Visit>): iset<nat> {
    iset p: nat | Returned(vs, p)
  }

  /** A magic number in the file, or what looks like one after some other byte,
      where the scan goes `back` and does not know the byte before. */
  ghost predicate Possible(file: seq<byte>, last: nat, back: iset<nat>, b: Boundary) {
    SeenAs(file, b) && 0 < b.coff <= last && (b.coff in back || MagicAt(file, 8 * b.coff - b.bits, b.magic))
  }

  lemma VisitPossible(file: seq<byte>, vs: seq<Visit>, last: nat, k: nat, m: Mark, level: byte)
    requires Enumerates(file, vs, last) && 0 < |file| && file[0] == MAGIC[0] && k < |vs| && Look(vs[k].prev, vs[k].window) == Some(m)
    ensures Possible(file, last, GoneBack(vs), Boundary(m.magic, level, vs[k].pos, m.bits))
  {
    hide Look, MagicAt, Matches, FirstFull, Enumerates, Seam;
    var v, b := vs[k], Boundary(m.magic, level, vs[k].pos, m.bits);
    NoLater(file, vs, last, k);
    Knows(file, vs, last, k);
    assert Spots(file, b, v.prev);
    SeenMarked(file, b);
    FirstBytes();
    if v.pos !in GoneBack(vs) {
      MagicBytes(file, v.pos, m.bits, v.prev, m.magic);
    }
  }

  /** Where it does not go back, a visit sees the byte before. */
  lemma Knows(file: seq<byte>, vs: seq<Visit>, last: nat, k: nat)
    requires Enumerates(file, vs, last) && k < |vs|
    ensures Shows(file, vs[k]) && (0 < vs[k].pos && vs[k].pos !in GoneBack(vs) ==> vs[k].prev == file[vs[k].pos - 1])
  {
    if 0 < k {
      assert Fresh(vs, k) || Seam(vs, k);
      assert Shows(file, vs[k - 1]);
    }
  }

  lemma {:induction false} NoLater(file: seq<byte>, vs: seq<Visit>, last: nat, k: nat)
    requires Enumerates(file, vs, last) && k < |vs|
    ensures vs[k].pos <= last
    decreases |vs| - k
  {
    if k + 1 < |vs| {
      assert Fresh(vs, k + 1) || Seam(vs, k + 1);
      NoLater(file, vs, last, k + 1);
    }
  }

  lemma {:induction false} FoundPossible(file: seq<byte>, vs: seq<Visit>, last: nat, n: nat)
    requires Enumerates(file, vs, last) && 0 < |file| && file[0] == MAGIC[0] && n <= |vs|
    ensures forall b | b in Run(START, vs[..n]).found :: Possible(file, last, GoneBack(vs), b)
    decreases n
  {
    hide Look, Run, Enumerates, Trusted, Possible;
    RunNone();
    if 0 < n {
      var upTo := vs[..n];
      assert upTo[..n - 1] == vs[..n - 1] && upTo[n - 1] == vs[n - 1];
      OneMore(upTo);
      FoundPossible(file, vs, last, n - 1);
      var m := Look(vs[n - 1].prev, vs[n - 1].window);
      if m.Some? {
        VisitPossible(file, vs, last, n - 1, m.value, Run(START, upTo).level);
      }
    }
  }

  /** A file that passes the check of its type (`Bzip2File.cc`, lines 13 to 34). */
  predicate HasHeader(file: seq<byte>) {
    10 <= |file| && file[..3] == MAGIC && 0x31 <= file[3] <= 0x39 && file[4..10] == BLOCK_BYTES
  }

  /** The first boundary found is the block magic of the header. */
  lemma FirstFound(file: seq<byte>, vs: seq<Visit>, last: nat)
    requires Enumerates(file, vs, last) && HasHeader(file) && 4 <= last
    ensures var found := Run(START, vs).found;
            found != [] && found[0].coff == 4 && found[0].bits == 0 && found[0].magic == BLOCK_MAGIC && MagicAt(file, 32, BLOCK_MAGIC)
  {
    hide Run, Enumerates, MagicAt, Reports, FirstFull, Look, SeenAs;
    var found := Run(START, vs).found;
    HeaderBytes(file);
    NothingMissed(file, vs, last, 32, BLOCK_MAGIC);
    FoundSeen(file, vs, last);
    FoundInOrder(file, vs, last);
    var i := ReportAt(found, 32, BLOCK_MAGIC);
    SeenMarked(file, found[0]);
    SeenMarked(file, found[i]);
    FirstBytes();
    if found[0].coff == 3 {
      AtThree(file, found[0]);
    }
    FirstBytesDistinct(found[0].magic, found[0].bits, BLOCK_MAGIC, 0);
  }

  lemma ReportAt(bl: seq<Boundary>, q: nat, magic: bv64) returns (i: nat)
    requires Reports(bl, q, magic)
    ensures i < |bl| && bl[i].magic == magic && 8 * bl[i].coff - bl[i].bits == q
  {
    i :| i < |bl| && bl[i].magic == magic && 8 * bl[i].coff - bl[i].bits == q;
  }

  lemma HeaderBytes(file: seq<byte>)
    requires HasHeader(file)
    ensures file[0] == 0x42 && file[1] == 0x5a && file[2] == 0x68 && file[4] == 0x31
    ensures MagicAt(file, 32, BLOCK_MAGIC)
  {
    hide CopiesBits;
    assert file[0] == file[..3][0] && file[1] == file[..3][1] && file[2] == file[..3][2] && file[4] == file[4..10][0];
    Bzip2Align.CopyBytes(file, 4, BLOCK_BYTES, 0, 6);
  }

  /** The level digit is not the first full byte of a magic number. */
  lemma AtThree(file: seq<byte>, b: Boundary)
    requires HasHeader(file) && b.coff == 3
    ensures !SeenAs(file, b)
  {
    hide Look, Matches, FirstFull;
    FirstBytes();
    HeaderBytes(file);
    if SeenAs(file, b) {
      SeenMarked(file, b);
      var u :| Spots(file, b, u);
      SecondByte(u, file[3..11], BytesOf(b.magic));
    }
  }

  lemma SecondByte(u: byte, s: seq<byte>, magic: seq<byte>)
    requires |s| == WORD && |magic| == 6 && Matches(u, s, 0, magic)
    ensures s[0] == magic[0] && s[1] == magic[1]
  {
    SpliceEnds(u, s[0]);
    SpliceEnds(s[0], s[1]);
  }

  // ----- The true boundaries of a file -----

  ghost predicate Fails(unpack: Unpack, cur: Boundary, level: byte, b: Boundary) {
    cur.magic != EOS_MAGIC && unpack(RangeOf(LevelAt(cur, level), cur, b)) == None
  }

  /** The block at `cur` ends at nothing that may be reported between it and byte
      `end`; after an end of stream, there is nothing to report. */
  ghost predicate Barren(file: seq<byte>, last: nat, back: iset<nat>, unpack: Unpack, cur: Boundary, level: byte, end: nat) {
    forall b | Possible(file, last, back, b) && cur.coff < b.coff < end :: Fails(unpack, cur, level, b)
  }

  /** `truth` are the true boundaries after `cur`: magic numbers in the file,
      each block decompressing up to the next of them; at nothing else that
      looks like a boundary does a block end, and nothing else that looks like
      one lies between the end of a stream and the next. */
  ghost predicate Streams(file: seq<byte>, last: nat, back: iset<nat>, unpack: Unpack, cur: Boundary, level: byte, truth: seq<Boundary>)
    decreases |truth|
  {
    if truth == [] then
      Barren(file, last, back, unpack, cur, level, last + 1)
    else
      var next := truth[0];
      && IsMagic(next.magic) && next.bits < 8 && cur.coff < next.coff <= last
      && MagicAt(file, 8 * next.coff - next.bits, next.magic)
      && (cur.magic != EOS_MAGIC ==> unpack(RangeOf(LevelAt(cur, level), cur, next)).Some?)
      && Barren(file, last, back, unpack, cur, level, next.coff)
      && Streams(file, last, back, unpack, next, LevelAfter(cur, level, next), truth[1..])
  }

  /** `t` is the first boundary of the list at its byte. */
  ghost predicate Reported(bl: seq<Boundary>, t: Boundary) {
    exists i :: 0 <= i < |bl| && bl[i] == t && forall j | 0 <= j < i :: bl[j].coff != t.coff
  }

  /** Two boundaries in a row are at byte `p`. */
  ghost predicate Repeats(bl: seq<Boundary>, p: nat) {
    exists i: nat :: i + 1 < |bl| && bl[i].coff == p && bl[i + 1].coff == p
  }

  lemma RepeatsCons(x: Boundary, bl: seq<Boundary>, p: nat)
    ensures Repeats([x] + bl, p) <==> Repeats(bl, p) || (bl != [] && x.coff == p && bl[0].coff == p)
  {
    var all := [x] + bl;
    if Repeats(bl, p) {
      var i: nat :| i + 1 < |bl| && bl[i].coff == p && bl[i + 1].coff == p;
      assert all[i + 1].coff == p && all[i + 1 + 1].coff == p;
    }
    if bl != [] && x.coff == p && bl[0].coff == p {
      assert all[0].coff == p && all[0 + 1].coff == p;
    }
    if i: nat :| i + 1 < |all| && all[i].coff == p && all[i + 1].coff == p {
      if 0 < i {
        assert bl[i - 1].coff == p && bl[i - 1 + 1].coff == p;
      }
    }
  }

  /** A true block that starts at the first bit of a byte and is reported twice. */
  ghost predicate Trap(cur: Boundary, truth: seq<Boundary>, bl: seq<Boundary>) {
    exists t :: t in [cur] + truth && t.magic != EOS_MAGIC && t.bits == 0 && Repeats(bl, t.coff)
  }

  /** What is left to walk: candidates after `cur` that the scan may report, among
      them every true boundary. */
  ghost predicate Ahead(file: seq<byte>, last: nat, back: iset<nat>, cur: Boundary, rest: seq<Boundary>, truth: seq<Boundary>) {
    && Candidates(file, [cur] + rest)
    && (forall b | b in rest :: Possible(file, last, back, b))
    && (forall t | t in truth :: Reported(rest, t))
  }

  /** The walk ends at the true blocks, or throws at a trap. */
  lemma {:induction false} Walked(file: seq<byte>, last: nat, back: iset<nat>, unpack: Unpack, cur: Boundary, level: byte,
                                  rest: seq<Boundary>, truth: seq<Boundary>, uoff: nat)
    requires Streams(file, last, back, unpack, cur, level, truth) && Ahead(file, last, back, cur, rest, truth) && RejectsEmptyRange(unpack)
    ensures Stops(unpack, cur, level, rest) <==> Trap(cur, truth, [cur] + rest)
    ensures !Stops(unpack, cur, level, rest) ==> BlocksFrom(unpack, cur, level, rest, uoff) == BlocksOf(unpack, cur, level, truth, uoff)
    decreases |rest|
  {
    hide Possible, MagicAt, Greedy, BlocksOf, MakeBlock, Ahead, Trap, Candidates;
    if rest == [] {
      NothingAhead(file, last, back, cur, truth);
      NoBlocks(unpack, cur, level, uoff);
    } else {
      var c, rest' := rest[0], rest[1..];
      AheadOrder(file, last, back, cur, rest, truth);
      if c.coff == cur.coff {
        if NothingBetween(cur, c) {
          TrapHere(cur, truth, rest);
        } else {
          assert [c] + rest' == rest;
          AgainAtOnce(unpack, cur, level, c, rest', uoff);
          AheadSkip(file, last, back, unpack, cur, level, rest, truth);
          Walked(file, last, back, unpack, cur, level, rest', truth, uoff);
        }
      } else if truth != [] && c.coff == truth[0].coff {
        AheadKeep(file, last, back, unpack, cur, level, rest, truth);
        var level' := LevelAfter(cur, level, c);
        BlocksFromStep(unpack, cur, level, rest, uoff);
        BlocksOfStep(unpack, cur, level, truth, uoff);
        var out := unpack(RangeOf(LevelAt(cur, level), cur, c));
        Walked(file, last, back, unpack, c, level', rest', truth[1..], if cur.magic == EOS_MAGIC then uoff else uoff + |out.value|);
      } else {
        AheadSkip(file, last, back, unpack, cur, level, rest, truth);
        SkippedFails(file, last, back, unpack, cur, level, rest, truth);
        BlocksFromStep(unpack, cur, level, rest, uoff);
        Walked(file, last, back, unpack, cur, level, rest', truth, uoff);
      }
    }
  }

  lemma NothingAhead(file: seq<byte>, last: nat, back: iset<nat>, cur: Boundary, truth: seq<Boundary>)
    requires Ahead(file, last, back, cur, [], truth)
    ensures truth == [] && !Trap(cur, truth, [cur] + [])
  {
    SomeIn(truth);
  }

  lemma SomeIn<T>(s: seq<T>)
    ensures s == [] || exists x :: x in s
  {
    if s != [] {
      assert s[0] in s;
    }
  }

  lemma BlocksOfStep(unpack: Unpack, cur: Boundary, level: byte, truth: seq<Boundary>, uoff: nat)
    requires truth != []
    ensures var next, out := truth[0], unpack(RangeOf(LevelAt(cur, level), cur, truth[0]));
            var level' := LevelAfter(cur, level, next);
            BlocksOf(unpack, cur, level, truth, uoff) ==
            if cur.magic == EOS_MAGIC then BlocksOf(unpack, next, level', truth[1..], uoff)
            else
              var usize := SizeOf(unpack, RangeOf(LevelAt(cur, level), cur, next));
              [MakeBlock(cur, next, uoff, usize, LevelAt(cur, level))] + BlocksOf(unpack, next, level', truth[1..], uoff + usize)
  {
  }

  /** Candidates come in order, and no later than the first true boundary. */
  lemma AheadOrder(file: seq<byte>, last: nat, back: iset<nat>, cur: Boundary, rest: seq<Boundary>, truth: seq<Boundary>)
    requires Ahead(file, last, back, cur, rest, truth) && rest != []
    ensures cur.coff <= rest[0].coff && (cur.coff == rest[0].coff ==> Twice(cur, rest[0]))
    ensures truth != [] ==> rest[0].coff <= truth[0].coff
  {
    hide Possible;
    var all := [cur] + rest;
    assert all[0] == cur && all[1] == rest[0];
    if truth != [] {
      assert truth[0] in truth;
      var i :| 0 <= i < |rest| && rest[i] == truth[0];
      assert all[i + 1] == truth[0];
    }
  }

  lemma TrapHere(cur: Boundary, truth: seq<Boundary>, rest: seq<Boundary>)
    requires rest != [] && NothingBetween(cur, rest[0])
    ensures Trap(cur, truth, [cur] + rest)
  {
    var all := [cur] + rest;
    assert all[0].coff == cur.coff && all[0 + 1].coff == cur.coff;
    assert cur in [cur] + truth;
  }

  lemma {:induction false} TrueLater(file: seq<byte>, last: nat, back: iset<nat>, unpack: Unpack, cur: Boundary, level: byte, truth: seq<Boundary>, t: Boundary)
    requires Streams(file, last, back, unpack, cur, level, truth) && t in truth
    ensures cur.coff < t.coff && (truth[0].coff < t.coff || t == truth[0])
    decreases |truth|
  {
    hide Possible, MagicAt, Fails;
    if t != truth[0] {
      TrueLater(file, last, back, unpack, truth[0], LevelAfter(cur, level, truth[0]), truth[1..], t);
    }
  }

  /** A candidate at none of the true boundaries ahead can be passed over. */
  lemma AheadSkip(file: seq<byte>, last: nat, back: iset<nat>, unpack: Unpack, cur: Boundary, level: byte, rest: seq<Boundary>, truth: seq<Boundary>)
    requires Streams(file, last, back, unpack, cur, level, truth) && Ahead(file, last, back, cur, rest, truth) && rest != []
    requires !NothingBetween(cur, rest[0]) && (truth != [] ==> rest[0].coff < truth[0].coff)
    ensures Ahead(file, last, back, cur, rest[1..], truth)
    ensures Trap(cur, truth, [cur] + rest) <==> Trap(cur, truth, [cur] + rest[1..])
  {
    hide Possible, Streams, Repeats, Candidates;
    var c, rest' := rest[0], rest[1..];
    OneFewer(file, cur, rest);
    forall t | t in truth
      ensures Reported(rest', t) && t.coff != c.coff && t.coff != cur.coff
    {
      TrueLater(file, last, back, unpack, cur, level, truth, t);
      ReportedRest(rest, t);
    }
    forall t | t in [cur] + truth && t.magic != EOS_MAGIC && t.bits == 0
      ensures Repeats([cur] + rest, t.coff) <==> Repeats([cur] + rest', t.coff)
    {
      assert [c] + rest' == rest;
      RepeatsCons(cur, rest, t.coff);
      RepeatsCons(cur, rest', t.coff);
      RepeatsCons(c, rest', t.coff);
      if t !in truth {
        NoMore(file, cur, rest);
      }
    }
  }

  /** Once past its byte, a boundary does not come again. */
  lemma NoMore(file: seq<byte>, cur: Boundary, rest: seq<Boundary>)
    requires Candidates(file, [cur] + rest) && rest != [] && rest[0].coff != cur.coff
    ensures forall b | b in rest :: cur.coff < b.coff
    ensures !Repeats(rest, cur.coff) && !Repeats([cur] + rest, cur.coff) && !Repeats([cur] + rest[1..], cur.coff)
  {
    hide SeenAs;
    var all := [cur] + rest;
    assert all[0] == cur && all[1] == rest[0];
    forall b | b in rest
      ensures cur.coff < b.coff
    {
      var i :| 0 <= i < |rest| && rest[i] == b;
      assert all[i + 1] == b && all[1].coff <= all[i + 1].coff;
    }
  }

  lemma OneFewer(file: seq<byte>, cur: Boundary, rest: seq<Boundary>)
    requires Candidates(file, [cur] + rest) && rest != []
    ensures Candidates(file, [cur] + rest[1..]) && Candidates(file, [rest[0]] + rest[1..])
  {
    hide Candidates;
    var all := [cur] + rest;
    CandidatesErase(file, all, 1);
    assert all[..1] + all[2..] == [cur] + rest[1..];
    CandidatesErase(file, all, 0);
    assert all[..0] + all[1..] == [rest[0]] + rest[1..];
  }

  lemma ReportedRest(bl: seq<Boundary>, t: Boundary)
    requires Reported(bl, t) && bl[0].coff != t.coff
    ensures Reported(bl[1..], t)
  {
    var i :| 0 <= i < |bl| && bl[i] == t && forall j | 0 <= j < i :: bl[j].coff != t.coff;
    var rest := bl[1..];
    assert rest[i - 1] == t && forall j | 0 <= j < i - 1 :: rest[j] == bl[j + 1];
  }

  lemma ReportedFirst(bl: seq<Boundary>, t: Boundary)
    requires Reported(bl, t) && bl[0].coff == t.coff
    ensures bl[0] == t
  {
  }

  /** The candidate at the next true boundary is that boundary. */
  lemma AheadKeep(file: seq<byte>, last: nat, back: iset<nat>, unpack: Unpack, cur: Boundary, level: byte, rest: seq<Boundary>, truth: seq<Boundary>)
    requires Streams(file, last, back, unpack, cur, level, truth) && Ahead(file, last, back, cur, rest, truth) && rest != []
    requires truth != [] && cur.coff < rest[0].coff == truth[0].coff
    ensures rest[0] == truth[0] && Ahead(file, last, back, rest[0], rest[1..], truth[1..])
    ensures Trap(cur, truth, [cur] + rest) <==> Trap(rest[0], truth[1..], [rest[0]] + rest[1..])
    ensures Streams(file, last, back, unpack, rest[0], LevelAfter(cur, level, rest[0]), truth[1..])
  {
    hide Possible, Repeats, Candidates, MagicAt, Fails;
    var c, rest' := rest[0], rest[1..];
    assert truth[0] in truth;
    ReportedFirst(rest, truth[0]);
    OneFewer(file, cur, rest);
    forall t | t in truth[1..]
      ensures Reported(rest', t)
    {
      TrueLater(file, last, back, unpack, truth[0], LevelAfter(cur, level, truth[0]), truth[1..], t);
      ReportedRest(rest, t);
    }
    assert [c] + rest' == rest && [c] + truth[1..] == truth;
    forall t | t in [cur] + truth
      ensures Repeats([cur] + rest, t.coff) <==> t in truth && Repeats(rest, t.coff)
    {
      RepeatsCons(cur, rest, t.coff);
      NoMore(file, cur, rest);
      if t in truth {
        TrueLater(file, last, back, unpack, cur, level, truth, t);
      }
    }
  }

  lemma SkippedFails(file: seq<byte>, last: nat, back: iset<nat>, unpack: Unpack, cur: Boundary, level: byte, rest: seq<Boundary>, truth: seq<Boundary>)
    requires Streams(file, last, back, unpack, cur, level, truth) && Ahead(file, last, back, cur, rest, truth) && rest != []
    requires cur.coff < rest[0].coff && (truth != [] ==> rest[0].coff < truth[0].coff)
    ensures Fails(unpack, cur, level, rest[0])
  {
    hide SeenAs, MagicAt, Fails, Candidates;
    assert rest[0] in rest;
  }

  // ----- The levels, in the file and as read -----

  /** The first block of a file. */
  function First(file: seq<byte>): Boundary
    requires 4 <= |file|
  {
    Boundary(BLOCK_MAGIC, file[3], 4, 0)
  }

  /** `truth` are the boundaries of the file that follow `cur`. Each block
      decompresses up to the next of them, and does not end at anything before it
      that the scan could report; after each end of stream but the last comes the
      header of another; after the last boundary, no block ends. */
  ghost predicate Layout(file: seq<byte>, last: nat, back: iset<nat>, unpack: Unpack, cur: Boundary, level: byte, truth: seq<Boundary>)
    decreases |truth|
  {
    if truth == [] then
      Barren(file, last, back, unpack, cur, level, last + 1)
    else
      var next := truth[0];
      && IsMagic(next.magic) && next.bits < 8 && cur.coff < next.coff <= last
      && MagicAt(file, 8 * next.coff - next.bits, next.magic)
      && (if cur.magic == EOS_MAGIC then StreamFollows(file, cur, next)
          else Barren(file, last, back, unpack, cur, level, next.coff) && unpack(RangeOf(LevelAt(cur, level), cur, next)).Some?)
      && Layout(file, last, back, unpack, next, LevelAfter(cur, level, next), truth[1..])
  }

  /** `truth` are the true boundaries of the file that follow the first block. */
  ghost predicate Truth(file: seq<byte>, last: nat, back: iset<nat>, unpack: Unpack, truth: seq<Boundary>) {
    HasHeader(file) && Layout(file, last, back, unpack, First(file), 0, truth)
  }

  /** Every end of stream but the last is followed by the header of another. */
  ghost predicate Headers(file: seq<byte>, cur: Boundary, truth: seq<Boundary>)
    decreases |truth|
  {
    truth != [] ==> (cur.magic == EOS_MAGIC ==> StreamFollows(file, cur, truth[0])) && Headers(file, truth[0], truth[1..])
  }

  ghost predicate Known(file: seq<byte>, cur: Boundary) {
    0 < cur.coff && cur.bits < 8 && IsMagic(cur.magic) && MagicAt(file, 8 * cur.coff - cur.bits, cur.magic)
  }

  /** With nothing to report between streams, the walk finds these boundaries. */
  lemma {:induction false} LayoutStreams(file: seq<byte>, last: nat, back: iset<nat>, unpack: Unpack, cur: Boundary, level: byte, truth: seq<Boundary>)
    requires Layout(file, last, back, unpack, cur, level, truth) && Known(file, cur)
    ensures Streams(file, last, back, unpack, cur, level, truth) && Headers(file, cur, truth)
    decreases |truth|
  {
    hide Barren, MagicAt, StreamFollows;
    if truth != [] {
      if cur.magic == EOS_MAGIC {
        GapBarren(file, last, back, unpack, cur, level, truth[0]);
      }
      LayoutStreams(file, last, back, unpack, truth[0], LevelAfter(cur, level, truth[0]), truth[1..]);
    }
  }

  lemma GapBarren(file: seq<byte>, last: nat, back: iset<nat>, unpack: Unpack, e: Boundary, level: byte, t: Boundary)
    requires TrueEOS(file, e) && StreamFollows(file, e, t)
    ensures Barren(file, last, back, unpack, e, level, t.coff)
  {
    hide SeenAs, MagicAt, StreamFollows;
    forall b | Possible(file, last, back, b) && e.coff < b.coff
      ensures t.coff <= b.coff
    {
      GapQuiet(file, e, t, b);
    }
  }

  /** The library takes only the levels '1' to '9'. */
  ghost predicate NeedsLevel(unpack: Unpack) {
    forall r: Range | !Digit(r.level) :: unpack(r) == None
  }

  /** The level the list gives where it first has byte `p`. */
  function LevelOf(bl: seq<Boundary>, p: nat, level: byte): byte {
    if bl == [] then level else if bl[0].coff == p then bl[0].level else LevelOf(bl[1..], p, level)
  }

  /** Boundary `t` as the scan has it. */
  function Read(found: seq<Boundary>, t: Boundary): Boundary {
    t.(level := LevelOf(found, t.coff, t.level))
  }

  function ReadAll(found: seq<Boundary>, truth: seq<Boundary>): (bl: seq<Boundary>)
    ensures |bl| == |truth| && forall i | 0 <= i < |bl| :: bl[i] == Read(found, truth[i])
  {
    seq(|truth|, i requires 0 <= i < |truth| => Read(found, truth[i]))
  }

  /** `cur` is the first block of a stream, and the scan has the stream's level wrong. */
  predicate Misread(found: seq<Boundary>, cur: Boundary, level: byte) {
    cur.magic != EOS_MAGIC && level == 0 && Read(found, cur).level != cur.level
  }

  /** The true boundaries up to the first block of the first stream whose level is misread. */
  function Cut(found: seq<Boundary>, cur: Boundary, level: byte, truth: seq<Boundary>): seq<Boundary>
    decreases |truth|
  {
    if truth == [] || Misread(found, cur, level) then []
    else [truth[0]] + Cut(found, truth[0], LevelAfter(cur, level, truth[0]), truth[1..])
  }

  /** If there is such a stream, what is read is not a level at all. */
  predicate NoOtherLevel(found: seq<Boundary>, cur: Boundary, level: byte, truth: seq<Boundary>)
    decreases |truth|
  {
    if Misread(found, cur, level) then !Digit(Read(found, cur).level)
    else truth != [] ==> NoOtherLevel(found, truth[0], LevelAfter(cur, level, truth[0]), truth[1..])
  }

  /** The level in force at `cur` is known, or is that of `cur`. */
  predicate LevelKnown(cur: Boundary, level: byte) {
    if cur.magic == EOS_MAGIC then level == 0 else level != 0 || Digit(cur.level)
  }

  /** With the levels as the scan has them, the true boundaries up to a misread
      level are all that a block can end at. */
  lemma {:induction false} AsRead(file: seq<byte>, last: nat, back: iset<nat>, unpack: Unpack, found: seq<Boundary>,
                                  cur: Boundary, level: byte, truth: seq<Boundary>)
    requires Streams(file, last, back, unpack, cur, level, truth) && Headers(file, cur, truth) && NeedsLevel(unpack)
    requires LevelKnown(cur, level) && NoOtherLevel(found, cur, level, truth)
    ensures Streams(file, last, back, unpack, Read(found, cur), level, ReadAll(found, Cut(found, cur, level, truth)))
    decreases |truth|
  {
    hide Streams, Headers, LevelOf, Fails, NeedsLevel;
    var cut, cur' := Cut(found, cur, level, truth), Read(found, cur);
    if Misread(found, cur, level) {
      NothingTaken(file, last, back, unpack, cur', level);
    } else if truth == [] {
      StreamsReread(file, last, back, unpack, cur, cur', level);
    } else {
      var next, level' := truth[0], LevelAfter(cur, level, truth[0]);
      StreamsRest(file, last, back, unpack, cur, level, truth);
      HeadersRest(file, cur, truth);
      AsRead(file, last, back, unpack, found, next, level', truth[1..]);
      var rest := Cut(found, next, level', truth[1..]);
      ReadCons(found, next, rest);
      StreamsStep(file, last, back, unpack, cur, cur', level, truth, Read(found, next), ReadAll(found, rest));
    }
  }

  lemma ReadCons(found: seq<Boundary>, t: Boundary, ts: seq<Boundary>)
    ensures ReadAll(found, [t] + ts) == [Read(found, t)] + ReadAll(found, ts)
  {
  }

  /** And they make the same blocks. */
  lemma {:induction false} BlocksAsRead(unpack: Unpack, found: seq<Boundary>, cur: Boundary, level: byte, truth: seq<Boundary>, uoff: nat)
    ensures var cut := Cut(found, cur, level, truth);
            BlocksOf(unpack, Read(found, cur), level, ReadAll(found, cut), uoff) == BlocksOf(unpack, cur, level, cut, uoff)
    decreases |truth|
  {
    hide BlocksOf, MakeBlock, LevelOf;
    var cut, cur' := Cut(found, cur, level, truth), Read(found, cur);
    var cut' := ReadAll(found, cut);
    if cut == [] {
      NothingMade(unpack, cur, cur', level, uoff);
    } else {
      var next, level' := truth[0], LevelAfter(cur, level, truth[0]);
      var usize := SizeOf(unpack, RangeOf(LevelAt(cur, level), cur, next));
      BlocksAsRead(unpack, found, next, level', truth[1..], if cur.magic == EOS_MAGIC then uoff else uoff + usize);
      assert cut[1..] == Cut(found, next, level', truth[1..]) && cut'[1..] == ReadAll(found, cut[1..]);
      BlocksOfStep(unpack, cur, level, cut, uoff);
      BlocksOfStep(unpack, cur', level, cut', uoff);
      SameMake(cur, cur', next, cut'[0], uoff, usize, LevelAt(cur, level));
    }
  }

  lemma StreamsReread(file: seq<byte>, last: nat, back: iset<nat>, unpack: Unpack, cur: Boundary, cur': Boundary, level: byte)
    requires Streams(file, last, back, unpack, cur, level, [])
    requires cur'.coff == cur.coff && cur'.bits == cur.bits && cur'.magic == cur.magic
    requires cur.magic != EOS_MAGIC ==> LevelAt(cur', level) == LevelAt(cur, level)
    ensures Streams(file, last, back, unpack, cur', level, [])
  {
    hide Barren;
    BarrenReread(file, last, back, unpack, cur, cur', level, last + 1);
  }

  lemma BarrenReread(file: seq<byte>, last: nat, back: iset<nat>, unpack: Unpack, cur: Boundary, cur': Boundary, level: byte, end: nat)
    requires Barren(file, last, back, unpack, cur, level, end)
    requires cur'.coff == cur.coff && cur'.bits == cur.bits && cur'.magic == cur.magic
    requires cur.magic != EOS_MAGIC ==> LevelAt(cur', level) == LevelAt(cur, level)
    ensures Barren(file, last, back, unpack, cur', level, end)
  {
    hide Possible;
  }

  lemma HeadersRest(file: seq<byte>, cur: Boundary, truth: seq<Boundary>)
    requires Headers(file, cur, truth) && truth != []
    ensures Headers(file, truth[0], truth[1..]) && (cur.magic == EOS_MAGIC ==> Digit(truth[0].level))
  {
  }

  lemma StreamsRest(file: seq<byte>, last: nat, back: iset<nat>, unpack: Unpack, cur: Boundary, level: byte, truth: seq<Boundary>)
    requires Streams(file, last, back, unpack, cur, level, truth) && truth != []
    ensures Streams(file, last, back, unpack, truth[0], LevelAfter(cur, level, truth[0]), truth[1..])
  {
    hide Barren, MagicAt;
  }

  /** A true boundary whose level, if it is the first of its stream, is known
      right can stand for the one in the file. */
  lemma StreamsStep(file: seq<byte>, last: nat, back: iset<nat>, unpack: Unpack, cur: Boundary, cur': Boundary, level: byte,
                    truth: seq<Boundary>, next': Boundary, tail: seq<Boundary>)
    requires Streams(file, last, back, unpack, cur, level, truth) && truth != []
    requires cur'.coff == cur.coff && cur'.bits == cur.bits && cur'.magic == cur.magic
    requires next'.coff == truth[0].coff && next'.bits == truth[0].bits && next'.magic == truth[0].magic
    requires cur.magic != EOS_MAGIC ==> LevelAt(cur', level) == LevelAt(cur, level)
    requires Streams(file, last, back, unpack, next', LevelAfter(cur, level, truth[0]), tail)
    ensures Streams(file, last, back, unpack, cur', level, [next'] + tail)
  {
    hide Barren, MagicAt;
    var all := [next'] + tail;
    assert all[0] == next' && all[1..] == tail;
    BarrenReread(file, last, back, unpack, cur, cur', level, next'.coff);
  }

  lemma NothingMade(unpack: Unpack, cur: Boundary, cur': Boundary, level: byte, uoff: nat)
    ensures BlocksOf(unpack, cur, level, [], uoff) == BlocksOf(unpack, cur', level, [], uoff)
  {
  }

  lemma NothingTaken(file: seq<byte>, last: nat, back: iset<nat>, unpack: Unpack, cur: Boundary, level: byte)
    requires NeedsLevel(unpack) && cur.magic != EOS_MAGIC && !Digit(LevelAt(cur, level))
    ensures Streams(file, last, back, unpack, cur, level, [])
  {
    hide Possible;
  }

  lemma SameMake(a: Boundary, a': Boundary, b: Boundary, b': Boundary, uoff: nat, usize: nat, level: byte)
    requires a.coff == a'.coff && a.bits == a'.bits && b.coff == b'.coff && b.bits == b'.bits
    ensures MakeBlock(a, b, uoff, usize, level) == MakeBlock(a', b', uoff, usize, level)
  {
  }

  // ----- What scan and walk make of a file -----

  /** A true block starts at the first bit of a byte that the scan goes back to. */
  ghost predicate AtSeam(back: iset<nat>, first: Boundary, truth: seq<Boundary>) {
    exists t :: t in [first] + truth && t.magic != EOS_MAGIC && t.bits == 0 && t.coff in back
  }

  lemma {:induction false} TrueMagic(file: seq<byte>, last: nat, back: iset<nat>, unpack: Unpack, cur: Boundary, level: byte, truth: seq<Boundary>, t: Boundary)
    requires Streams(file, last, back, unpack, cur, level, truth) && t in truth
    ensures IsMagic(t.magic) && t.bits < 8 && cur.coff < t.coff <= last && MagicAt(file, 8 * t.coff - t.bits, t.magic)
    decreases |truth|
  {
    hide MagicAt, Possible, Fails;
    if t != truth[0] {
      TrueMagic(file, last, back, unpack, truth[0], LevelAfter(cur, level, truth[0]), truth[1..], t);
    }
  }

  /** The scan reports every magic number in the file, with the level it has then. */
  lemma AllReported(file: seq<byte>, vs: seq<Visit>, last: nat, t: Boundary)
    requires Enumerates(file, vs, last) && IsMagic(t.magic) && t.bits < 8 && 0 < t.coff <= last && MagicAt(file, 8 * t.coff - t.bits, t.magic)
    ensures Reported(Run(START, vs).found, Read(Run(START, vs).found, t))
  {
    hide Run, Enumerates, MagicAt, Reports, LevelOf, SeenAs;
    var found := Run(START, vs).found;
    NothingMissed(file, vs, last, 8 * t.coff - t.bits, t.magic);
    var i := ReportAt(found, 8 * t.coff - t.bits, t.magic);
    FoundSeen(file, vs, last);
    SeenMarked(file, found[i]);
    var j := LevelThere(found, t.coff, t.level, i);
    SameMark(file, found[i], found[j]);
  }

  lemma {:induction false} LevelThere(bl: seq<Boundary>, p: nat, level: byte, i: nat) returns (j: nat)
    requires i < |bl| && bl[i].coff == p
    ensures j <= i && bl[j].coff == p && bl[j].level == LevelOf(bl, p, level) && forall k | 0 <= k < j :: bl[k].coff != p
    decreases i
  {
    if bl[0].coff == p {
      j := 0;
    } else {
      j := LevelThere(bl[1..], p, level, i - 1);
      j := j + 1;
    }
  }

  lemma RepeatsAtSeams(file: seq<byte>, vs: seq<Visit>, last: nat, t: Boundary)
    requires Enumerates(file, vs, last) && IsMagic(t.magic) && t.bits == 0 && MagicAt(file, 8 * t.coff, t.magic)
    ensures Repeats(Run(START, vs).found, t.coff) <==> t.coff in GoneBack(vs)
  {
    hide Run, Enumerates, MagicAt, Returned;
    var found := Run(START, vs).found;
    if Returned(vs, t.coff) {
      AlignedTwice(file, vs, last, t.coff, t.magic);
      var i: nat :| i < |found| - 1 && found[i].coff == found[i + 1].coff == t.coff;
      assert found[i].coff == t.coff && found[i + 1].coff == t.coff;
    }
    if i: nat :| i + 1 < |found| && found[i].coff == t.coff && found[i + 1].coff == t.coff {
      TwiceAtSeam(file, vs, last, i, i + 1);
    }
  }

  /** Scan and walk together: of a file whose true boundaries are `truth`, they
      leave exactly the true blocks before any stream whose level is misread as
      none, unless one of these starts at the first bit of a byte the scan goes
      back to; exactly then, the walk throws. */
  lemma Recovered(file: seq<byte>, vs: seq<Visit>, last: nat, unpack: Unpack, truth: seq<Boundary>)
    requires Enumerates(file, vs, last) && 4 <= last && RejectsEmptyRange(unpack) && NeedsLevel(unpack)
    requires Truth(file, last, GoneBack(vs), unpack, truth) && NoOtherLevel(Run(START, vs).found, First(file), 0, truth)
    ensures var first, found := First(file), Run(START, vs).found;
            var cut := Cut(found, first, 0, truth);
            && found != []
            && (Stops(unpack, found[0], found[0].level, found[1..]) <==> AtSeam(GoneBack(vs), first, cut))
            && (!Stops(unpack, found[0], found[0].level, found[1..]) ==>
                  BlocksFrom(unpack, found[0], found[0].level, found[1..], 0) == BlocksOf(unpack, first, 0, cut, 0))
  {
    hide Run, Enumerates, MagicAt, Stops, BlocksOf, Greedy, Possible, Streams, Layout, GoneBack, Repeats, Headers, Cut, NoOtherLevel, LevelOf, SeenAs;
    FirstFound(file, vs, last);
    var found, first := Run(START, vs).found, First(file);
    var cut, back := Cut(found, first, 0, truth), GoneBack(vs);
    var bl, rest := ReadAll(found, cut), found[1..];
    HeaderBytes(file);
    LayoutStreams(file, last, back, unpack, first, 0, truth);
    AsRead(file, last, back, unpack, found, first, 0, truth);
    BlocksAsRead(unpack, found, first, 0, truth, 0);
    ReadFirst(found, first);
    assert [found[0]] + rest == found;
    AllAhead(file, vs, last, unpack, cut);
    Walked(file, last, back, unpack, found[0], 0, rest, bl, 0);
    SettleLevel(unpack, found[0], 0, rest, 0);
    SeamsAsRead(file, vs, last, unpack, cut);
  }

  lemma ReadFirst(found: seq<Boundary>, first: Boundary)
    requires found != [] && found[0].coff == first.coff && found[0].bits == first.bits && found[0].magic == first.magic
    ensures Read(found, first) == found[0]
  {
  }

  lemma AllAhead(file: seq<byte>, vs: seq<Visit>, last: nat, unpack: Unpack, cut: seq<Boundary>)
    requires Enumerates(file, vs, last) && HasHeader(file) && 4 <= last && Run(START, vs).found != []
    requires Run(START, vs).found[0] == Read(Run(START, vs).found, First(file))
    requires Streams(file, last, GoneBack(vs), unpack, Run(START, vs).found[0], 0, ReadAll(Run(START, vs).found, cut))
    ensures Ahead(file, last, GoneBack(vs), Run(START, vs).found[0], Run(START, vs).found[1..], ReadAll(Run(START, vs).found, cut))
  {
    hide Run, Enumerates, MagicAt, Possible, Streams, LevelOf, Candidates, Reported, Headers, SeenAs;
    var found := Run(START, vs).found;
    var bl := ReadAll(found, cut);
    HeaderBytes(file);
    ScanGivesCandidates(file, vs, last);
    assert [found[0]] + found[1..] == found && vs[..|vs|] == vs;
    FoundPossible(file, vs, last, |vs|);
    forall t | t in bl
      ensures Reported(found[1..], t)
    {
      TrueMagic(file, last, GoneBack(vs), unpack, found[0], 0, bl, t);
      var i: nat :| i < |bl| && bl[i] == t;
      AllReported(file, vs, last, cut[i]);
      ReportedRest(found, t);
    }
  }

  lemma SeamsAsRead(file: seq<byte>, vs: seq<Visit>, last: nat, unpack: Unpack, cut: seq<Boundary>)
    requires Enumerates(file, vs, last) && HasHeader(file) && 4 <= last && Run(START, vs).found != []
    requires Run(START, vs).found[0] == Read(Run(START, vs).found, First(file))
    requires Streams(file, last, GoneBack(vs), unpack, Run(START, vs).found[0], 0, ReadAll(Run(START, vs).found, cut))
    ensures Trap(Run(START, vs).found[0], ReadAll(Run(START, vs).found, cut), Run(START, vs).found) <==> AtSeam(GoneBack(vs), First(file), cut)
  {
    hide Run, Enumerates, MagicAt, Possible, Streams, LevelOf, GoneBack, Repeats, SeenAs;
    var found, first := Run(START, vs).found, First(file);
    var bl, all := ReadAll(found, cut), [First(file)] + cut;
    HeaderBytes(file);
    assert ReadAll(found, all) == [found[0]] + bl;
    forall i: nat | i < |all| && all[i].bits == 0 && all[i].magic != EOS_MAGIC
      ensures Repeats(found, all[i].coff) <==> all[i].coff in GoneBack(vs)
    {
      if 0 < i {
        assert bl[i - 1] in bl;
        TrueMagic(file, last, GoneBack(vs), unpack, found[0], 0, bl, bl[i - 1]);
      }
      RepeatsAtSeams(file, vs, last, all[i]);
    }
    if AtSeam(GoneBack(vs), first, cut) {
      var t :| t in [first] + cut && t.magic != EOS_MAGIC && t.bits == 0 && t.coff in GoneBack(vs);
      var i: nat :| i < |all| && all[i] == t;
      assert ReadAll(found, all)[i] in [found[0]] + bl;
    }
    if Trap(found[0], bl, found) {
      var t :| t in [found[0]] + bl && t.magic != EOS_MAGIC && t.bits == 0 && Repeats(found, t.coff);
      var i: nat :| i < |all| && ReadAll(found, all)[i] == t;
      assert all[i] in [first] + cut;
    }
  }

  // ----- The true blocks of a file -----

  /** Every true boundary is a magic number in the file. */
  lemma {:induction false} LayoutKnown(file: seq<byte>, last: nat, back: iset<nat>, unpack: Unpack, cur: Boundary, level: byte, truth: seq<Boundary>)
    requires Layout(file, last, back, unpack, cur, level, truth)
    ensures forall t | t in truth :: Known(file, t) && t.coff <= last
    decreases |truth|
  {
    hide MagicAt, Barren, StreamFollows;
    if truth != [] {
      LayoutKnown(file, last, back, unpack, truth[0], LevelAfter(cur, level, truth[0]), truth[1..]);
      assert [truth[0]] + truth[1..] == truth;
    }
  }

  /** Every true block, and so every one up to some boundary, is one the library takes. */
  lemma {:induction false} LayoutTaken(file: seq<byte>, last: nat, back: iset<nat>, unpack: Unpack, cur: Boundary, level: byte,
                                       truth: seq<Boundary>, cut: seq<Boundary>)
    requires Layout(file, last, back, unpack, cur, level, truth) && cut <= truth
    ensures Taken(unpack, cur, level, cut)
    decreases |truth|
  {
    hide MagicAt, Barren, StreamFollows;
    if cut != [] {
      LayoutTaken(file, last, back, unpack, truth[0], LevelAfter(cur, level, truth[0]), truth[1..], cut[1..]);
    }
  }

  lemma {:induction false} CutPrefix(found: seq<Boundary>, cur: Boundary, level: byte, truth: seq<Boundary>)
    ensures Cut(found, cur, level, truth) <= truth
    decreases |truth|
  {
    if truth != [] {
      CutPrefix(found, truth[0], LevelAfter(cur, level, truth[0]), truth[1..]);
    }
  }

  lemma KnownSeen(file: seq<byte>, b: Boundary, level: byte)
    requires Known(file, b) && b.coff + WORD <= |file|
    ensures SeenAs(file, Boundary(b.magic, level, b.coff, b.bits))
  {
    hide MagicAt, Look, Matches;
    var u, w := file[b.coff - 1], file[b.coff..b.coff + WORD];
    MagicBytes(file, b.coff, b.bits, u, b.magic);
    LookFinds(u, w, b.bits, b.magic, 0);
    assert Spots(file, Boundary(b.magic, level, b.coff, b.bits), u);
  }

  /** The blocks between such boundaries can be cut out of the file again. */
  lemma {:induction false} BlocksWhole(file: seq<byte>, lib: Library, unpack: Unpack, cur: Boundary, level: byte, truth: seq<Boundary>, uoff: nat)
    requires Answers(file, lib, unpack) && Taken(unpack, cur, level, truth) && SpansFit(cur, truth)
    requires Known(file, cur) && cur.coff + WORD <= |file| && forall t | t in truth :: Known(file, t) && t.coff + WORD <= |file|
    ensures forall b | b in BlocksOf(unpack, cur, level, truth, uoff) :: Whole(file, b)
    decreases |truth|
  {
    hide Answers, Known, MakeBlock, Whole;
    if truth != [] {
      var next := truth[0];
      var usize := SizeOf(unpack, RangeOf(LevelAt(cur, level), cur, next));
      BlocksWhole(file, lib, unpack, next, LevelAfter(cur, level, next), truth[1..], if cur.magic == EOS_MAGIC then uoff else uoff + usize);
      if cur.magic != EOS_MAGIC {
        OneWhole(file, lib, unpack, cur, next, LevelAt(cur, level), uoff, usize);
      }
    }
  }

  lemma OneWhole(file: seq<byte>, lib: Library, unpack: Unpack, a: Boundary, b: Boundary, level: byte, uoff: nat, usize: nat)
    requires Answers(file, lib, unpack) && unpack(RangeOf(level, a, b)).Some? && a.magic != EOS_MAGIC && a.coff < b.coff && b.coff - a.coff < U32
    requires Known(file, a) && Known(file, b) && a.coff + WORD <= |file| && b.coff + WORD <= |file|
    ensures Whole(file, MakeBlock(a, b, uoff, usize, level))
  {
    hide MagicAt, SeenAs, DressedUp, BadlyEmpty, RejectsEmptyRange;
    KnownSeen(file, a, level);
    assert StartsBlock(file, RangeOf(level, a, b));
    assert 0 < Span(RangeOf(level, a, b));
  }
}

