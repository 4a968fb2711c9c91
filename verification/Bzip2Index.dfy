/** Sorting true block boundaries from spurious ones by trying to decompress
    (`Bzip2File::buildIndex`). */
module Bzip2Index {
  import opened Bits
  import opened Blocks
  import opened Bzip2Align
  import opened Bzip2Format
  import opened Bzip2Scan
  import opened Bzip2Seams
  import opened Wrappers

  /** What is passed to `createAlignedBlock`. */
  datatype Range = Range(level: byte, coff: nat, bits: nat, end: nat, endbits: nat)

  /** What the bzip2 library makes of a range that has been read and aligned:
      the bytes it holds, or nothing when it rejects it. */
  type Unpack = Range -> Option<seq<byte>>

  /** The library itself, given a buffer. */
  type Library = seq<byte> -> Option<seq<byte>>

  /** How many bits a range has. */
  function Span(r: Range): int {
    8 * r.end - r.endbits - (8 * r.coff - r.bits)
  }

  /** `out` is what `createAlignedBlock` makes of range `r` of the file. */
  ghost predicate DressedUp(file: seq<byte>, r: Range, out: seq<byte>) {
    && r.bits < 8 && r.endbits < 8 && r.bits <= 8 * r.coff && r.coff <= r.end && 0 <= Span(r)
    && |out| == 14 + (r.end - r.coff) + (if r.bits > 0 then 1 else 0)
    && OneBlockFile(out, r.level, file, 8 * r.coff - r.bits, Span(r))
  }

  const LEAST: nat := 80 // bits of a block's magic number and checksum
  const NO_SUM: seq<byte> := [0, 0, 0, 0]

  /** The scan may report a block at the start of `r`. */
  ghost predicate StartsBlock(file: seq<byte>, r: Range) {
    SeenAs(file, Boundary(BLOCK_MAGIC, r.level, r.coff, r.bits))
  }

  /** A file without blocks and with a checksum other than zero, which is that
      of no data, and a byte left over. */
  predicate BadlyEmpty(out: seq<byte>) {
    |out| == 15 && out[..3] == MAGIC && out[4..10] == EOS_BYTES && out[10..14] != NO_SUM
  }

  /** The library rejects a range that ends at the bit where it starts, if it
      can be read at all. */
  ghost predicate RejectsEmptyRange(unpack: Unpack) {
    forall r: Range | r.coff == r.end && r.bits == r.endbits && 0 < r.bits :: unpack(r) == None
  }

  /** The library's answer to a dressed-up range depends on its level and data
      alone, not on what is left in the buffer behind them; it takes none too
      short for a block, nor a file without blocks whose checksum is not that
      of no data. */
  ghost predicate Answers(file: seq<byte>, lib: Library, unpack: Unpack) {
    && (forall r, out | DressedUp(file, r, out) && LEAST <= Span(r) :: lib(out) == unpack(r))
    && (forall r | 0 < Span(r) < LEAST && StartsBlock(file, r) :: unpack(r) == None && forall out | DressedUp(file, r, out) :: lib(out) == None)
    && (forall out | BadlyEmpty(out) :: lib(out) == None)
    && RejectsEmptyRange(unpack)
  }

  /** The same of the library alone: it answers all ways of filling the rest of
      the buffer alike. */
  ghost predicate Steady(file: seq<byte>, lib: Library) {
    && (forall r, a, b | DressedUp(file, r, a) && DressedUp(file, r, b) && LEAST <= Span(r) :: lib(a) == lib(b))
    && (forall r, out | DressedUp(file, r, out) && 0 < Span(r) < LEAST && StartsBlock(file, r) :: lib(out) == None)
    && (forall out | BadlyEmpty(out) :: lib(out) == None)
  }

  ghost function AnyAnswer(file: seq<byte>, lib: Library, r: Range): Option<seq<byte>> {
    if LEAST <= Span(r) && exists out :: DressedUp(file, r, out) then var out :| DressedUp(file, r, out); lib(out) else None
  }

  /** Then there are answers to ranges that go with it. */
  lemma HasAnswers(file: seq<byte>, lib: Library)
    ensures Steady(file, lib) <==> exists unpack :: Answers(file, lib, unpack)
  {
    hide DressedUp, StartsBlock, BadlyEmpty;
    if Steady(file, lib) {
      var unpack: Unpack := r => AnyAnswer(file, lib, r);
      forall r, out | DressedUp(file, r, out)
        ensures LEAST <= Span(r) ==> lib(out) == unpack(r)
      {
        assert unpack(r) == AnyAnswer(file, lib, r);
      }
      assert Answers(file, lib, unpack);
    }
    if unpack :| Answers(file, lib, unpack) {
      assert Steady(file, lib);
    }
  }

  /** Some bit of the checksum of the block in `r` is set. */
  ghost predicate HasSum(file: seq<byte>, r: Range) {
    exists q: nat | 8 * r.coff - r.bits + 48 <= q < 8 * r.coff - r.bits + LEAST && q < 8 * |file| :: BitAt(file, q)
  }

  /** No block that the library takes has checksum zero. */
  ghost predicate NoZeroSums(file: seq<byte>, unpack: Unpack) {
    forall r: Range | unpack(r).Some? && LEAST <= Span(r) && r.bits <= 8 * r.coff :: HasSum(file, r)
  }

  function RangeOf(level: byte, start: Boundary, end: Boundary): Range {
    Range(level, start.coff, start.bits, end.coff, end.bits)
  }

  function MakeBlock(start: Boundary, end: Boundary, uoff: nat, usize: nat, level: byte): Bzip2Record {
    Bzip2Block(Block(usize % U32, (end.coff - start.coff) % U32, uoff, start.coff), start.bits, end.bits, level)
  }

  ghost predicate Ordered(bl: seq<Boundary>) {
    forall i, j | 0 <= i < j < |bl| :: bl[i].coff <= bl[j].coff
  }

  // ----- The true boundaries -----

  function LevelAt(cur: Boundary, level: byte): byte {
    if cur.magic != EOS_MAGIC && level == 0 then cur.level else level
  }

  function LevelAfter(cur: Boundary, level: byte, next: Boundary): byte {
    if cur.magic != EOS_MAGIC && next.magic == EOS_MAGIC then 0 else LevelAt(cur, level)
  }

  /** The block that starts at `cur` cannot end at any of `cands`. */
  ghost predicate AllFail(unpack: Unpack, cur: Boundary, level: byte, cands: seq<Boundary>) {
    forall c | c in cands :: unpack(RangeOf(LevelAt(cur, level), cur, c)) == None
  }

  /** `truth` are the boundaries that follow `cur`, `cands` the candidates after
      it, and `gaps[k]` counts the candidates skipped before `truth[k]`. A block
      decompresses up to its true end and to no candidate before it; nothing
      lies between the end of a stream and the block that follows. */
  ghost predicate FollowsBy(unpack: Unpack, cur: Boundary, level: byte, cands: seq<Boundary>, truth: seq<Boundary>, gaps: seq<nat>)
    decreases |truth|
  {
    |gaps| == |truth| &&
    if truth == [] then
      if cur.magic == EOS_MAGIC then cands == [] else AllFail(unpack, cur, level, cands)
    else
      var n, next := gaps[0], truth[0];
      && n < |cands| && cands[n] == next
      && (if cur.magic == EOS_MAGIC then n == 0
          else AllFail(unpack, cur, level, cands[..n]) && unpack(RangeOf(LevelAt(cur, level), cur, next)).Some?)
      && FollowsBy(unpack, next, LevelAfter(cur, level, next), cands[n + 1..], truth[1..], gaps[1..])
  }

  ghost predicate Follows(unpack: Unpack, cur: Boundary, level: byte, cands: seq<Boundary>, truth: seq<Boundary>) {
    exists gaps: seq<nat> :: FollowsBy(unpack, cur, level, cands, truth, gaps)
  }

  /** What walking the list once and keeping every end that decompresses leaves. */
  function Greedy(unpack: Unpack, cur: Boundary, level: byte, cands: seq<Boundary>): seq<Boundary>
    decreases |cands|
  {
    if cands == [] then []
    else if cur.magic != EOS_MAGIC && unpack(RangeOf(LevelAt(cur, level), cur, cands[0])) == None then
      Greedy(unpack, cur, level, cands[1..])
    else
      [cands[0]] + Greedy(unpack, cands[0], LevelAfter(cur, level, cands[0]), cands[1..])
  }

  /** A block from `a` to `b` cannot even be read: it starts at the first bit of
      a byte and `b` is at the same byte, so no byte lies between. */
  predicate NothingBetween(a: Boundary, b: Boundary) {
    a.magic != EOS_MAGIC && a.bits == 0 && b.coff == a.coff
  }

  /** The walk tries to read such a range, which throws out of it. */
  predicate Stops(unpack: Unpack, cur: Boundary, level: byte, cands: seq<Boundary>)
    decreases |cands|
  {
    cands != [] &&
    if NothingBetween(cur, cands[0]) then true
    else if cur.magic != EOS_MAGIC && unpack(RangeOf(LevelAt(cur, level), cur, cands[0])) == None then
      Stops(unpack, cur, level, cands[1..])
    else Stops(unpack, cands[0], LevelAfter(cur, level, cands[0]), cands[1..])
  }

  /** Boundary `k` of `cur` and the candidates after it is not erased. */
  predicate Kept(unpack: Unpack, cur: Boundary, level: byte, cands: seq<Boundary>, k: nat)
    requires k <= |cands|
    decreases |cands|
  {
    if k == 0 then true
    else if cur.magic != EOS_MAGIC && unpack(RangeOf(LevelAt(cur, level), cur, cands[0])) == None then
      k != 1 && Kept(unpack, cur, level, cands[1..], k - 1)
    else Kept(unpack, cands[0], LevelAfter(cur, level, cands[0]), cands[1..], k - 1)
  }

  ghost predicate InOrder(cur: Boundary, cands: seq<Boundary>) {
    Ordered(cands) && (cands != [] ==> cur.coff <= cands[0].coff)
  }

  lemma InOrderRest(cur: Boundary, cands: seq<Boundary>)
    requires InOrder(cur, cands) && cands != []
    ensures InOrder(cur, cands[1..]) && InOrder(cands[0], cands[1..])
  {
  }

  /** The candidate right after boundary `k` is at the same byte, and a block
      between the two cannot be read. */
  predicate Trips(cur: Boundary, cands: seq<Boundary>, k: nat)
    requires k < |cands|
  {
    NothingBetween(if k == 0 then cur else cands[k - 1], cands[k])
  }

  /** The walk throws exactly when some block boundary that it keeps, at the
      first bit of a byte, is directly followed by a candidate at that byte. */
  lemma {:induction false} StopsExactly(unpack: Unpack, cur: Boundary, level: byte, cands: seq<Boundary>)
    requires InOrder(cur, cands)
    ensures Stops(unpack, cur, level, cands) <==> exists k: nat :: k < |cands| && Kept(unpack, cur, level, cands, k) && Trips(cur, cands, k)
    decreases |cands|
  {
    if cands != [] && NothingBetween(cur, cands[0]) {
      assert Kept(unpack, cur, level, cands, 0) && Trips(cur, cands, 0);
    } else if cands != [] {
      var rest := cands[1..];
      var erased := cur.magic != EOS_MAGIC && unpack(RangeOf(LevelAt(cur, level), cur, cands[0])) == None;
      var cur', level' := if erased then cur else cands[0], if erased then level else LevelAfter(cur, level, cands[0]);
      InOrderRest(cur, cands);
      StopsExactly(unpack, cur', level', rest);
      if k: nat :| k < |rest| && Kept(unpack, cur', level', rest, k) && Trips(cur', rest, k) {
        assert erased ==> k != 0;
        assert Kept(unpack, cur, level, cands, k + 1) && Trips(cur, cands, k + 1);
      }
      if k: nat :| k < |cands| && Kept(unpack, cur, level, cands, k) && Trips(cur, cands, k) {
        assert k != 0 && (erased ==> k != 1);
        assert Kept(unpack, cur', level', rest, k - 1) && Trips(cur', rest, k - 1);
      }
    }
  }

  /** Boundary recovery: the walk leaves exactly the true boundaries, and there
      is no other list it could be mistaken for. */
  lemma GreedyRecovers(unpack: Unpack, cur: Boundary, level: byte, cands: seq<Boundary>, truth: seq<Boundary>)
    ensures Follows(unpack, cur, level, cands, truth) <==> truth == Greedy(unpack, cur, level, cands)
  {
    if Follows(unpack, cur, level, cands, truth) {
      var gaps: seq<nat> :| FollowsBy(unpack, cur, level, cands, truth, gaps);
      FollowsIsGreedy(unpack, cur, level, cands, truth, gaps);
    }
    var gaps := GreedyFollows(unpack, cur, level, cands);
  }

  lemma {:induction false} FollowsIsGreedy(unpack: Unpack, cur: Boundary, level: byte, cands: seq<Boundary>, truth: seq<Boundary>, gaps: seq<nat>)
    requires FollowsBy(unpack, cur, level, cands, truth, gaps)
    ensures truth == Greedy(unpack, cur, level, cands)
    decreases |cands|
  {
    if cands == [] {
    } else if cur.magic != EOS_MAGIC && unpack(RangeOf(LevelAt(cur, level), cur, cands[0])) == None {
      var rest := cands[1..];
      if truth == [] {
        FollowsIsGreedy(unpack, cur, level, rest, [], []);
      } else {
        OneErased(unpack, cur, level, cands, truth, gaps);
        FollowsIsGreedy(unpack, cur, level, rest, truth, [gaps[0] - 1] + gaps[1..]);
      }
    } else {
      FollowsIsGreedy(unpack, cands[0], LevelAfter(cur, level, cands[0]), cands[1..], truth[1..], gaps[1..]);
    }
  }

  /** Without a first candidate that does not decompress, one fewer is skipped. */
  lemma OneErased(unpack: Unpack, cur: Boundary, level: byte, cands: seq<Boundary>, truth: seq<Boundary>, gaps: seq<nat>)
    requires FollowsBy(unpack, cur, level, cands, truth, gaps) && cands != [] && truth != []
    requires cur.magic != EOS_MAGIC && unpack(RangeOf(LevelAt(cur, level), cur, cands[0])) == None
    ensures 0 < gaps[0] && FollowsBy(unpack, cur, level, cands[1..], truth, [gaps[0] - 1] + gaps[1..])
  {
    var n, rest := gaps[0], cands[1..];
    assert 0 < n;
    assert forall c | c in rest[..n - 1] :: c in cands[..n];
    var gaps' := [n - 1] + gaps[1..];
    assert gaps'[1..] == gaps[1..] && rest[n..] == cands[n + 1..];
  }

  lemma {:induction false} GreedyFollows(unpack: Unpack, cur: Boundary, level: byte, cands: seq<Boundary>) returns (gaps: seq<nat>)
    ensures FollowsBy(unpack, cur, level, cands, Greedy(unpack, cur, level, cands), gaps)
    decreases |cands|
  {
    var truth := Greedy(unpack, cur, level, cands);
    if cands == [] {
      gaps := [];
    } else if cur.magic != EOS_MAGIC && unpack(RangeOf(LevelAt(cur, level), cur, cands[0])) == None {
      var rest := cands[1..];
      gaps := GreedyFollows(unpack, cur, level, rest);
      if truth != [] {
        var n := gaps[0];
        assert cands[..n + 1] == [cands[0]] + rest[..n] && cands[n + 2..] == rest[n + 1..];
        var gaps' := [n + 1] + gaps[1..];
        assert gaps'[1..] == gaps[1..];
        gaps := gaps';
      }
    } else {
      gaps := GreedyFollows(unpack, cands[0], LevelAfter(cur, level, cands[0]), cands[1..]);
      var gaps' := [0] + gaps;
      assert gaps'[1..] == gaps && truth[1..] == Greedy(unpack, cands[0], LevelAfter(cur, level, cands[0]), cands[1..]);
      assert cands[0 + 1..] == cands[1..];
      gaps := gaps';
    }
  }

  /** The same, for a whole list of candidates. */
  lemma StopsAt(unpack: Unpack, cands: seq<Boundary>)
    requires cands != [] && Ordered(cands)
    ensures Stops(unpack, cands[0], cands[0].level, cands[1..])
            <==> exists k: nat :: k + 1 < |cands| && Kept(unpack, cands[0], cands[0].level, cands[1..], k) && NothingBetween(cands[k], cands[k + 1])
  {
    hide Stops, Kept;
    var first, rest := cands[0], cands[1..];
    StopsExactly(unpack, first, first.level, rest);
    if k: nat :| k < |rest| && Kept(unpack, first, first.level, rest, k) && Trips(first, rest, k) {
      assert NothingBetween(cands[k], cands[k + 1]);
    }
    if k: nat :| k + 1 < |cands| && Kept(unpack, first, first.level, rest, k) && NothingBetween(cands[k], cands[k + 1]) {
      assert Trips(first, rest, k);
    }
  }

  /** The second block of a file, at the first bit of a byte and reported twice:
      the walk throws, and the file has no index. */
  lemma TwiceStops(unpack: Unpack, first: Boundary, a: Boundary, b: Boundary, post: seq<Boundary>)
    requires first.magic == a.magic == b.magic == BLOCK_MAGIC && first.coff < a.coff == b.coff && a.bits == b.bits == 0
    requires unpack(RangeOf(first.level, first, a)).Some?
    ensures Stops(unpack, first, first.level, [a, b] + post)
  {
    var cands := [a, b] + post;
    assert cands[0] == a && cands[1..][0] == b;
    assert Stops(unpack, a, LevelAfter(first, first.level, a), cands[1..]);
  }

  // ----- The blocks between them -----

  function SizeOf(unpack: Unpack, r: Range): nat {
    var out := unpack(r);
    if out.Some? then |out.value| else 0
  }

  /** One block for every boundary of `cur` and `truth` that starts one. */
  function BlocksOf(unpack: Unpack, cur: Boundary, level: byte, truth: seq<Boundary>, uoff: nat): seq<Bzip2Record>
    decreases |truth|
  {
    if truth == [] then []
    else
      var next, rest, lv := truth[0], truth[1..], LevelAt(cur, level);
      var usize := SizeOf(unpack, RangeOf(lv, cur, next));
      if cur.magic == EOS_MAGIC then BlocksOf(unpack, next, LevelAfter(cur, level, next), rest, uoff)
      else [MakeBlock(cur, next, uoff, usize, lv)] + BlocksOf(unpack, next, LevelAfter(cur, level, next), rest, uoff + usize)
  }

  /** Settling the level early changes nothing. */
  lemma {:induction false} SettleLevel(unpack: Unpack, cur: Boundary, level: byte, cands: seq<Boundary>, uoff: nat)
    ensures var tail := Greedy(unpack, cur, level, cands);
            && tail == Greedy(unpack, cur, LevelAt(cur, level), cands)
            && BlocksOf(unpack, cur, level, tail, uoff) == BlocksOf(unpack, cur, LevelAt(cur, level), tail, uoff)
            && Stops(unpack, cur, level, cands) == Stops(unpack, cur, LevelAt(cur, level), cands)
    decreases |cands|
  {
    if cands != [] && cur.magic != EOS_MAGIC && unpack(RangeOf(LevelAt(cur, level), cur, cands[0])) == None {
      SettleLevel(unpack, cur, level, cands[1..], uoff);
    }
  }

  // ----- Boundaries reported twice -----

  /** The blocks that the walk makes of candidates `cands`. */
  function BlocksFrom(unpack: Unpack, cur: Boundary, level: byte, cands: seq<Boundary>, uoff: nat): seq<Bzip2Record> {
    BlocksOf(unpack, cur, level, Greedy(unpack, cur, level, cands), uoff)
  }

  /** The same boundary, met with perhaps another level in force. */
  ghost predicate Twice(a: Boundary, b: Boundary) {
    a.magic == b.magic && a.coff == b.coff && a.bits == b.bits
  }

  /** The end of a stream, or a block that starts inside a byte, changes nothing
      when a seam of two chunks reports it twice. */
  lemma {:induction false} TwiceIsOnce(unpack: Unpack, cur: Boundary, level: byte, pre: seq<Boundary>, a: Boundary, b: Boundary, post: seq<Boundary>, uoff: nat)
    requires RejectsEmptyRange(unpack) && Twice(a, b) && (a.magic == EOS_MAGIC || 0 < a.bits)
    ensures BlocksFrom(unpack, cur, level, pre + [a, b] + post, uoff) == BlocksFrom(unpack, cur, level, pre + [a] + post, uoff)
    ensures Stops(unpack, cur, level, pre + [a, b] + post) == Stops(unpack, cur, level, pre + [a] + post)
    decreases |pre|
  {
    hide Greedy, BlocksOf, MakeBlock;
    var twice, once := pre + [a, b] + post, pre + [a] + post;
    var next := once[0];
    assert twice[0] == next;
    BlocksFromStep(unpack, cur, level, twice, uoff);
    BlocksFromStep(unpack, cur, level, once, uoff);
    if pre != [] {
      assert twice[1..] == pre[1..] + [a, b] + post && once[1..] == pre[1..] + [a] + post;
      var out := unpack(RangeOf(LevelAt(cur, level), cur, next));
      if cur.magic == EOS_MAGIC {
        TwiceIsOnce(unpack, next, LevelAfter(cur, level, next), pre[1..], a, b, post, uoff);
      } else if out == None {
        TwiceIsOnce(unpack, cur, level, pre[1..], a, b, post, uoff);
      } else {
        TwiceIsOnce(unpack, next, LevelAfter(cur, level, next), pre[1..], a, b, post, uoff + |out.value|);
      }
    } else {
      assert twice[1..] == [b] + post && once[1..] == post;
      if cur.magic != EOS_MAGIC && unpack(RangeOf(LevelAt(cur, level), cur, a)) == None {
        BlocksFromStep(unpack, cur, level, [b] + post, uoff);
        assert ([b] + post)[1..] == post;
      } else {
        var out := unpack(RangeOf(LevelAt(cur, level), cur, a));
        AgainAtOnce(unpack, a, LevelAfter(cur, level, a), b, post, if cur.magic == EOS_MAGIC then uoff else uoff + |out.value|);
      }
    }
  }

  lemma BlocksFromStep(unpack: Unpack, cur: Boundary, level: byte, cands: seq<Boundary>, uoff: nat)
    requires cands != []
    ensures var next, out := cands[0], unpack(RangeOf(LevelAt(cur, level), cur, cands[0]));
            var level' := LevelAfter(cur, level, next);
            BlocksFrom(unpack, cur, level, cands, uoff) ==
            if cur.magic == EOS_MAGIC then BlocksFrom(unpack, next, level', cands[1..], uoff)
            else if out == None then BlocksFrom(unpack, cur, level, cands[1..], uoff)
            else [MakeBlock(cur, next, uoff, |out.value|, LevelAt(cur, level))]
                 + BlocksFrom(unpack, next, level', cands[1..], uoff + |out.value|)
  {
    if cur.magic == EOS_MAGIC || unpack(RangeOf(LevelAt(cur, level), cur, cands[0])).Some? {
      hide Greedy, BlocksOf, MakeBlock;
      Keep(unpack, cur, level, cands, uoff);
    }
  }

  /** Straight after a boundary, the same boundary is either rejected or, at the
      end of a stream, stands in for it. */
  lemma AgainAtOnce(unpack: Unpack, a: Boundary, level: byte, b: Boundary, post: seq<Boundary>, uoff: nat)
    requires RejectsEmptyRange(unpack) && Twice(a, b) && (a.magic == EOS_MAGIC || 0 < a.bits)
    ensures BlocksFrom(unpack, a, level, [b] + post, uoff) == BlocksFrom(unpack, a, level, post, uoff)
    ensures Stops(unpack, a, level, [b] + post) == Stops(unpack, a, level, post)
  {
    hide Greedy, BlocksOf, MakeBlock;
    assert ([b] + post)[1..] == post;
    BlocksFromStep(unpack, a, level, [b] + post, uoff);
    if a.magic == EOS_MAGIC && post != [] {
      BlocksFromStep(unpack, a, level, post, uoff);
      BlocksFromStep(unpack, b, level, post, uoff);
    } else if post == [] {
      NoBlocks(unpack, a, level, uoff);
      NoBlocks(unpack, b, level, uoff);
    }
  }

  lemma NoBlocks(unpack: Unpack, cur: Boundary, level: byte, uoff: nat)
    ensures BlocksFrom(unpack, cur, level, [], uoff) == BlocksOf(unpack, cur, level, [], uoff) == []
  {
  }

  // ----- The walk -----

  /** The walk stands at boundary `i`; the rest of the list is as it was given. */
  ghost predicate Walking(unpack: Unpack, cands: seq<Boundary>, bl: seq<Boundary>, i: nat, level: byte, blocks: seq<Bzip2Record>, uoff: nat) {
    && cands != [] && i < |bl| && bl[0] == cands[0]
    && Stops(unpack, cands[0], cands[0].level, cands[1..]) == Stops(unpack, bl[i], level, bl[i + 1..])
    && var truth := Greedy(unpack, cands[0], cands[0].level, cands[1..]);
       var tail := Greedy(unpack, bl[i], level, bl[i + 1..]);
       && truth == bl[1..i + 1] + tail
       && BlocksOf(unpack, cands[0], cands[0].level, truth, 0) == blocks + BlocksOf(unpack, bl[i], level, tail, uoff)
  }

  lemma WalkSettle(unpack: Unpack, cands: seq<Boundary>, bl: seq<Boundary>, i: nat, level: byte, blocks: seq<Bzip2Record>, uoff: nat)
    requires Walking(unpack, cands, bl, i, level, blocks, uoff)
    ensures Walking(unpack, cands, bl, i, LevelAt(bl[i], level), blocks, uoff)
  {
    hide Greedy, BlocksOf, Stops;
    SettleLevel(unpack, bl[i], level, bl[i + 1..], uoff);
  }

  lemma WalkErase(unpack: Unpack, cands: seq<Boundary>, bl: seq<Boundary>, i: nat, level: byte, blocks: seq<Bzip2Record>, uoff: nat)
    requires Walking(unpack, cands, bl, i, level, blocks, uoff) && i + 1 < |bl| && LevelAt(bl[i], level) == level
    requires bl[i].magic != EOS_MAGIC && unpack(RangeOf(level, bl[i], bl[i + 1])) == None && !NothingBetween(bl[i], bl[i + 1])
    ensures Walking(unpack, cands, bl[..i + 1] + bl[i + 2..], i, level, blocks, uoff)
  {
    hide BlocksOf;
    var bl' := bl[..i + 1] + bl[i + 2..];
    assert bl'[i + 1..] == bl[i + 1..][1..] && bl'[1..i + 1] == bl[1..i + 1] && bl'[i] == bl[i] && bl'[0] == bl[0];
    assert Greedy(unpack, bl[i], level, bl[i + 1..]) == Greedy(unpack, bl[i], level, bl[i + 1..][1..]);
  }

  lemma WalkOn(unpack: Unpack, cands: seq<Boundary>, bl: seq<Boundary>, i: nat, level: byte, blocks: seq<Bzip2Record>, uoff: nat)
    requires Walking(unpack, cands, bl, i, level, blocks, uoff) && i + 1 < |bl| && LevelAt(bl[i], level) == level
    requires bl[i].magic != EOS_MAGIC ==> unpack(RangeOf(level, bl[i], bl[i + 1])).Some? && !NothingBetween(bl[i], bl[i + 1])
    ensures var r, level' := RangeOf(level, bl[i], bl[i + 1]), LevelAfter(bl[i], level, bl[i + 1]);
            if bl[i].magic == EOS_MAGIC then Walking(unpack, cands, bl, i + 1, level', blocks, uoff)
            else Walking(unpack, cands, bl, i + 1, level', blocks + [MakeBlock(bl[i], bl[i + 1], uoff, |unpack(r).value|, level)],
                         uoff + |unpack(r).value|)
  {
    hide Greedy, BlocksOf, MakeBlock;
    var cands' := bl[i + 1..];
    Keep(unpack, bl[i], level, cands', uoff);
    assert cands'[0] == bl[i + 1] && cands'[1..] == bl[i + 2..] && bl[1..i + 2] == bl[1..i + 1] + [bl[i + 1]];
  }

  lemma Keep(unpack: Unpack, cur: Boundary, level: byte, cands: seq<Boundary>, uoff: nat)
    requires cands != [] && (cur.magic != EOS_MAGIC ==> unpack(RangeOf(LevelAt(cur, level), cur, cands[0])).Some?)
    ensures var tail, next, level' := Greedy(unpack, cur, level, cands), cands[0], LevelAfter(cur, level, cands[0]);
            && tail == [next] + Greedy(unpack, next, level', cands[1..])
            && BlocksOf(unpack, cur, level, tail, uoff) ==
               if cur.magic == EOS_MAGIC then BlocksOf(unpack, next, level', Greedy(unpack, next, level', cands[1..]), uoff)
               else
                 var usize := SizeOf(unpack, RangeOf(LevelAt(cur, level), cur, next));
                 [MakeBlock(cur, next, uoff, usize, LevelAt(cur, level))]
                 + BlocksOf(unpack, next, level', Greedy(unpack, next, level', cands[1..]), uoff + usize)
  {
    var tail := Greedy(unpack, cur, level, cands);
    assert tail[1..] == Greedy(unpack, cands[0], LevelAfter(cur, level, cands[0]), cands[1..]);
  }

  lemma CandidatesErase(file: seq<byte>, bl: seq<Boundary>, j: nat)
    requires Candidates(file, bl) && j < |bl|
    ensures Candidates(file, bl[..j] + bl[j + 1..])
  {
    hide SeenAs;
  }

  /** Trying the range between two candidates either throws or asks the library
      about exactly that range. The buffer `was` is used again: when the second
      candidate is the first one over, its old bytes become the checksum of a
      file without blocks. */
  method TryRange(file: seq<byte>, was: seq<byte>, level: byte, start: Boundary, end: Boundary, lib: Library, ghost unpack: Unpack)
    returns (found: bool, out: Option<seq<byte>>, buf: seq<byte>)
    requires Candidates(file, [start, end]) && start.magic != EOS_MAGIC && Answers(file, lib, unpack)
    requires start.coff == end.coff && 0 < start.bits ==> Sum(was) != NO_SUM
    ensures found <==> !NothingBetween(start, end)
    ensures found ==> out == unpack(RangeOf(level, start, end))
    ensures found && start.coff == end.coff ==> Sum(buf) == Sum(was)
    ensures found && out.Some? && NoZeroSums(file, unpack) ==> Sum(buf) != NO_SUM
  {
    hide OneBlockFile, Answers, CopiesBits, SeenAs, StartsBlock, Candidates, Sum, NoZeroSums;
    CandidateRange(file, start, end, level);
    var ok, b, r := CreateAlignedBlock(file, was, level, start.coff, start.bits, end.coff, end.bits, true);
    buf := b[..];
    if !ok {
      return false, None, buf; // EOFException
    }
    out := lib(buf);
    found := true;
    if start.coff == end.coff {
      SumAgain(level, was, buf);
      AskedNothing(file, lib, unpack, RangeOf(level, start, end), was, buf);
    } else {
      Asked(file, lib, unpack, RangeOf(level, start, end), buf);
      if out.Some? && NoZeroSums(file, unpack) {
        SumKept(file, lib, unpack, RangeOf(level, start, end), buf);
      }
    }
  }

  lemma CandidateRange(file: seq<byte>, start: Boundary, end: Boundary, level: byte)
    requires Candidates(file, [start, end]) && start.magic != EOS_MAGIC
    ensures start.bits < 8 && end.bits < 8 && 0 < start.coff <= end.coff && end.coff + WORD <= |file|
    ensures start.coff == end.coff ==> start.bits == end.bits
    ensures start.coff < end.coff ==> 0 < Span(RangeOf(level, start, end))
    ensures StartsBlock(file, RangeOf(level, start, end))
  {
    hide Look;
    assert [start, end][0] == start && [start, end][1] == end;
    var u :| Spots(file, start, u);
    assert Spots(file, Boundary(BLOCK_MAGIC, level, start.coff, start.bits), u);
  }

  lemma SumAgain(level: byte, was: seq<byte>, buf: seq<byte>)
    requires 14 <= |buf| && buf[..14] == MAGIC + [level] + EOS_BYTES + Sum(was)
    ensures buf[..3] == MAGIC && buf[4..10] == EOS_BYTES && buf[10..14] == Sum(was) == Sum(buf)
  {
    var head := MAGIC + [level] + EOS_BYTES + Sum(was);
    assert buf[..3] == buf[..14][..3] == head[..3];
    assert buf[4..10] == buf[..14][4..10] == head[4..10];
    assert buf[10..14] == buf[..14][10..14] == head[10..14];
  }

  lemma AskedNothing(file: seq<byte>, lib: Library, unpack: Unpack, r: Range, was: seq<byte>, buf: seq<byte>)
    requires Answers(file, lib, unpack) && r.coff == r.end && r.bits == r.endbits && 0 < r.bits
    requires |buf| == 15 && buf[..3] == MAGIC && buf[4..10] == EOS_BYTES && buf[10..14] == Sum(was) != NO_SUM
    ensures lib(buf) == unpack(r) == None
  {
    hide DressedUp, Sum;
    assert BadlyEmpty(buf);
  }

  lemma Asked(file: seq<byte>, lib: Library, unpack: Unpack, r: Range, out: seq<byte>)
    requires Answers(file, lib, unpack) && DressedUp(file, r, out) && 0 < Span(r) && StartsBlock(file, r)
    ensures lib(out) == unpack(r) && (unpack(r).Some? ==> LEAST <= Span(r))
  {
    hide DressedUp, StartsBlock, RejectsEmptyRange, Span;
  }

  lemma SumKept(file: seq<byte>, lib: Library, unpack: Unpack, r: Range, out: seq<byte>)
    requires NoZeroSums(file, unpack) && DressedUp(file, r, out) && LEAST <= Span(r) && unpack(r).Some?
    ensures Sum(out) != NO_SUM
  {
    hide Bit;
    assert HasSum(file, r);
    var from := 8 * r.coff - r.bits;
    var q: nat :| from + 48 <= q < from + LEAST && q < 8 * |file| && BitAt(file, q);
    assert BitAt(out, q - from + 32);
    var k := (q - from + 32) / 8;
    assert 10 <= k < 14 && Sum(out)[k - 10] == out[k];
    NoBit((q - from + 32) % 8);
  }

  lemma NoBit(k: nat)
    requires k < 8
    ensures !Bit(0, k)
  {
  }

  /** Where the walk may meet the boundary it stands at once more, the buffer
      still has the checksum of a block that was taken. */
  ghost predicate Fed(bl: seq<Boundary>, i: nat, buf: seq<byte>)
    requires i < |bl|
  {
    0 < i && (bl[i].magic == EOS_MAGIC || (i + 1 < |bl| && bl[i + 1].coff == bl[i].coff)) ==> Sum(buf) != NO_SUM
  }

  lemma FedErase(file: seq<byte>, bl: seq<Boundary>, i: nat, buf: seq<byte>, buf': seq<byte>)
    requires Candidates(file, bl) && i + 1 < |bl| && Fed(bl, i, buf) && bl[i].magic != EOS_MAGIC
    requires bl[i].coff == bl[i + 1].coff ==> Sum(buf') == Sum(buf)
    ensures Fed(bl[..i + 1] + bl[i + 2..], i, buf')
  {
    hide SeenAs, Sum;
  }

  /** The two-cursor walk over the candidates, the first of which is the block
      in the header of the file. It throws, giving no index, when a range it
      tries has nothing to read. */
  method BuildIndex(file: seq<byte>, cands: seq<Boundary>, lib: Library, ghost unpack: Unpack)
    returns (index: Option<seq<Bzip2Record>>, bl: seq<Boundary>)
    requires cands != [] && Candidates(file, cands) && cands[0].magic == BLOCK_MAGIC && cands[0].bits == 0
    requires Answers(file, lib, unpack) && NoZeroSums(file, unpack)
    ensures index.None? <==> Stops(unpack, cands[0], cands[0].level, cands[1..])
    ensures index.Some? ==> bl == [cands[0]] + Greedy(unpack, cands[0], cands[0].level, cands[1..])
    ensures index.Some? ==> Candidates(file, bl) && index.value == BlocksOf(unpack, bl[0], bl[0].level, bl[1..], 0)
  {
    hide Walking, Candidates, Answers, NoZeroSums, Sum;
    bl := cands;
    var blocks: seq<Bzip2Record>, uoff: nat, buf: seq<byte> := [], 0, [];
    var i, j := 0, 1;
    var level := bl[0].level;
    WalkStart(unpack, cands);
    while j < |bl|
      invariant 0 <= i && j == i + 1 <= |bl| && bl[0] == cands[0] && Candidates(file, bl)
      invariant Walking(unpack, cands, bl, i, level, blocks, uoff) && Fed(bl, i, buf)
      decreases |bl| - j
    {
      WalkSettle(unpack, cands, bl, i, level, blocks, uoff);
      if bl[i].magic != EOS_MAGIC {
        if level == 0 {
          level := bl[i].level;
        }
        CandidatePair(file, bl, i);
        ghost var was := buf;
        var found, out;
        found, out, buf := TryRange(file, buf, level, bl[i], bl[j], lib, unpack);
        if !found {
          WalkStops(unpack, cands, bl, i, level, blocks, uoff);
          return None, bl;
        }
        if out == None { // no block ends here
          WalkErase(unpack, cands, bl, i, level, blocks, uoff);
          CandidatesErase(file, bl, j);
          FedErase(file, bl, i, was, buf);
          bl := bl[..j] + bl[j + 1..];
          continue;
        }
        WalkOn(unpack, cands, bl, i, level, blocks, uoff);
        blocks := blocks + [MakeBlock(bl[i], bl[j], uoff, |out.value|, level)];
        uoff := uoff + |out.value|;
        if bl[j].magic == EOS_MAGIC {
          level := 0;
        }
      } else {
        WalkOn(unpack, cands, bl, i, level, blocks, uoff);
      }
      i, j := i + 1, j + 1;
    }
    WalkEnd(unpack, cands, bl, i, level, blocks, uoff);
    index := Some(blocks);
  }

  lemma CandidatePair(file: seq<byte>, bl: seq<Boundary>, i: nat)
    requires Candidates(file, bl) && i + 1 < |bl|
    ensures Candidates(file, [bl[i], bl[i + 1]])
  {
    hide SeenAs;
  }

  lemma WalkStart(unpack: Unpack, cands: seq<Boundary>)
    requires cands != []
    ensures Walking(unpack, cands, cands, 0, cands[0].level, [], 0)
  {
  }

  lemma WalkStops(unpack: Unpack, cands: seq<Boundary>, bl: seq<Boundary>, i: nat, level: byte, blocks: seq<Bzip2Record>, uoff: nat)
    requires Walking(unpack, cands, bl, i, level, blocks, uoff) && i + 1 < |bl| && NothingBetween(bl[i], bl[i + 1])
    ensures Stops(unpack, cands[0], cands[0].level, cands[1..])
  {
    hide Greedy, BlocksOf;
    assert bl[i + 1..][0] == bl[i + 1];
  }

  lemma WalkEnd(unpack: Unpack, cands: seq<Boundary>, bl: seq<Boundary>, i: nat, level: byte, blocks: seq<Bzip2Record>, uoff: nat)
    requires Walking(unpack, cands, bl, i, level, blocks, uoff) && |bl| == i + 1
    ensures bl == [cands[0]] + Greedy(unpack, cands[0], cands[0].level, cands[1..])
    ensures blocks == BlocksOf(unpack, bl[0], bl[0].level, bl[1..], 0)
    ensures !Stops(unpack, cands[0], cands[0].level, cands[1..])
  {
    assert bl == [bl[0]] + bl[1..] && bl[1..i + 1] == bl[1..];
  }

  // ----- Reading a block back -----

  /** What `Bzip2File::decompressBlock` gives. */
  function DecompressBlock(unpack: Unpack, b: Bzip2Record): Option<seq<byte>> {
    match unpack(BlockRange(b))
    case None => None
    case Some(out) => if |out| != b.block.usize then None else Some(out)
  }

  function BlockRange(b: Bzip2Record): Range {
    Range(b.level, b.block.coff, b.bits, b.block.coff + b.block.csize, b.endbits)
  }

  /** The range of the block is in the file and could hold a block. */
  predicate Whole(file: seq<byte>, b: Bzip2Record) {
    && b.bits < 8 && b.endbits < 8 && b.bits <= 8 * b.block.coff
    && b.block.coff + b.block.csize <= |file| && LEAST <= Span(BlockRange(b))
  }

  /** Cutting the block out of the file and passing it to the library. */
  method Decompress(file: seq<byte>, b: Bzip2Record, lib: Library, ghost unpack: Unpack) returns (out: Option<seq<byte>>)
    requires Whole(file, b) && Answers(file, lib, unpack)
    ensures out == DecompressBlock(unpack, b)
  {
    hide OneBlockFile, CopiesBits;
    var end := b.block.coff + b.block.csize;
    var ok, buf, r := CreateAlignedBlock(file, [], b.level, b.block.coff, b.bits, end, b.endbits, true);
    out := lib(buf[..]);
    assert DressedUp(file, BlockRange(b), buf[..]);
    if out.Some? && |out.value| != b.block.usize {
      out := None;
    }
  }

  /** All the blocks between the boundaries, decompressed one after another. */
  function Content(unpack: Unpack, cur: Boundary, level: byte, truth: seq<Boundary>): seq<byte>
    decreases |truth|
  {
    if truth == [] then []
    else
      var next, out := truth[0], unpack(RangeOf(LevelAt(cur, level), cur, truth[0]));
      (if cur.magic != EOS_MAGIC && out.Some? then out.value else [])
      + Content(unpack, next, LevelAfter(cur, level, next), truth[1..])
  }

  /** The compressed size of every block fits the 32-bit field that holds it. */
  ghost predicate SpansFit(cur: Boundary, truth: seq<Boundary>)
    decreases |truth|
  {
    truth != [] ==>
      && (cur.magic != EOS_MAGIC ==> 0 <= truth[0].coff - cur.coff < U32)
      && SpansFit(truth[0], truth[1..])
  }

  /** So does the uncompressed size. */
  ghost predicate SizesFit(unpack: Unpack, cur: Boundary, level: byte, truth: seq<Boundary>)
    decreases |truth|
  {
    truth != [] ==>
      && (cur.magic != EOS_MAGIC ==> SizeOf(unpack, RangeOf(LevelAt(cur, level), cur, truth[0])) < U32)
      && SizesFit(unpack, truth[0], LevelAfter(cur, level, truth[0]), truth[1..])
  }

  /** Block `b` decompresses to its slice of a content that starts at `from`. */
  ghost predicate Delivers(unpack: Unpack, b: Bzip2Record, content: seq<byte>, from: nat) {
    && from <= b.block.uoff && b.block.uoff + b.block.usize <= from + |content|
    && DecompressBlock(unpack, b) == Some(content[b.block.uoff - from..b.block.uoff - from + b.block.usize])
  }

  /** A block made while indexing asks `unpack` the same question when it is
      read, and accepts the answer if its size was not cut off. */
  lemma SameQuestion(unpack: Unpack, start: Boundary, end: Boundary, uoff: nat, level: byte, out: seq<byte>)
    requires 0 <= end.coff - start.coff < U32 && unpack(RangeOf(level, start, end)) == Some(out)
    ensures DecompressBlock(unpack, MakeBlock(start, end, uoff, |out|, level)) == if |out| < U32 then Some(out) else None
  {
  }

  /** The blocks tile the content, which starts at `uoff`, and each reads back as its slice. */
  ghost predicate Sound(unpack: Unpack, blocks: seq<Bzip2Record>, content: seq<byte>, uoff: nat) {
    Covers(Plain(blocks), uoff, |content|) && forall b | b in blocks :: Delivers(unpack, b, content, uoff)
  }

  /** Every block between two of the boundaries is one the library takes. */
  ghost predicate Taken(unpack: Unpack, cur: Boundary, level: byte, truth: seq<Boundary>)
    decreases |truth|
  {
    truth != [] ==>
      && cur.coff <= truth[0].coff
      && (cur.magic != EOS_MAGIC ==> cur.coff < truth[0].coff && unpack(RangeOf(LevelAt(cur, level), cur, truth[0])).Some?)
      && Taken(unpack, truth[0], LevelAfter(cur, level, truth[0]), truth[1..])
  }

  lemma FirstTwo(file: seq<byte>, cur: Boundary, cands: seq<Boundary>)
    requires Candidates(file, [cur] + cands) && cands != []
    ensures Candidates(file, [cur] + cands[1..]) && Candidates(file, [cands[0]] + cands[1..])
    ensures cur.coff <= cands[0].coff && (cur.coff == cands[0].coff ==> cur.bits == cands[0].bits)
  {
    hide SeenAs;
    var all := [cur] + cands;
    CandidatesErase(file, all, 1);
    CandidatesErase(file, all, 0);
    assert all[..1] + all[2..] == [cur] + cands[1..] && all[..0] + all[1..] == [cands[0]] + cands[1..];
    assert all[0] == cur && all[1] == cands[0];
  }

  /** So it is with what the walk leaves. */
  lemma {:induction false} GreedyTaken(file: seq<byte>, unpack: Unpack, cur: Boundary, level: byte, cands: seq<Boundary>)
    requires Candidates(file, [cur] + cands) && RejectsEmptyRange(unpack) && !Stops(unpack, cur, level, cands)
    ensures Taken(unpack, cur, level, Greedy(unpack, cur, level, cands))
    decreases |cands|
  {
    hide Candidates;
    if cands != [] {
      var next := cands[0];
      FirstTwo(file, cur, cands);
      if cur.magic != EOS_MAGIC && unpack(RangeOf(LevelAt(cur, level), cur, next)) == None {
        GreedyTaken(file, unpack, cur, level, cands[1..]);
      } else {
        GreedyTaken(file, unpack, next, LevelAfter(cur, level, next), cands[1..]);
        assert Greedy(unpack, cur, level, cands)[1..] == Greedy(unpack, next, LevelAfter(cur, level, next), cands[1..]);
      }
    }
  }

  /** The index is sound exactly when no block holds more than 32 bits can count. */
  lemma {:induction false} IndexSound(unpack: Unpack, cur: Boundary, level: byte, truth: seq<Boundary>, uoff: nat)
    requires Taken(unpack, cur, level, truth) && SpansFit(cur, truth)
    ensures Sound(unpack, BlocksOf(unpack, cur, level, truth, uoff), Content(unpack, cur, level, truth), uoff)
            <==> SizesFit(unpack, cur, level, truth)
    decreases |truth|
  {
    hide Sound, DecompressBlock, MakeBlock;
    if truth == [] {
      SoundNone(unpack, uoff);
    } else {
      var next, tail, lv, level' := truth[0], truth[1..], LevelAt(cur, level), LevelAfter(cur, level, truth[0]);
      if cur.magic == EOS_MAGIC {
        IndexSound(unpack, next, level', tail, uoff);
        assert Content(unpack, cur, level, truth) == Content(unpack, next, level', tail);
      } else {
        var first := unpack(RangeOf(lv, cur, next)).value;
        IndexSound(unpack, next, level', tail, uoff + |first|);
        SoundCons(unpack, cur, next, lv, first, BlocksOf(unpack, next, level', tail, uoff + |first|),
                  Content(unpack, next, level', tail), uoff);
      }
    }
  }

  lemma SoundNone(unpack: Unpack, uoff: nat)
    ensures Sound(unpack, [], [], uoff)
  {
  }

  lemma SoundCons(unpack: Unpack, start: Boundary, end: Boundary, level: byte, first: seq<byte>,
                  rest: seq<Bzip2Record>, content: seq<byte>, uoff: nat)
    requires unpack(RangeOf(level, start, end)) == Some(first) && 0 <= end.coff - start.coff < U32
    ensures Sound(unpack, [MakeBlock(start, end, uoff, |first|, level)] + rest, first + content, uoff)
            <==> |first| < U32 && Sound(unpack, rest, content, uoff + |first|)
  {
    hide Sound, MakeBlock;
    var b := MakeBlock(start, end, uoff, |first|, level);
    SameQuestion(unpack, start, end, uoff, level, first);
    MadeBlock(start, end, uoff, |first|, level);
    if Sound(unpack, [b] + rest, first + content, uoff) {
      FirstFits(unpack, b, rest, first + content, uoff);
      SoundRest(unpack, b, rest, first, content, uoff);
    }
    if |first| < U32 && Sound(unpack, rest, content, uoff + |first|) {
      SoundMore(unpack, b, rest, first, content, uoff);
    }
  }

  lemma FirstFits(unpack: Unpack, b: Bzip2Record, rest: seq<Bzip2Record>, content: seq<byte>, uoff: nat)
    requires Sound(unpack, [b] + rest, content, uoff)
    ensures DecompressBlock(unpack, b).Some?
  {
    hide Covers, DecompressBlock;
    assert b in [b] + rest;
  }

  lemma SoundRest(unpack: Unpack, b: Bzip2Record, rest: seq<Bzip2Record>, first: seq<byte>, content: seq<byte>, uoff: nat)
    requires Sound(unpack, [b] + rest, first + content, uoff) && b.block.usize == |first|
    ensures Sound(unpack, rest, content, uoff + |first|)
  {
    hide Covers, Delivers;
    assert Plain([b] + rest) == [b.block] + Plain(rest);
    CoversRest(b.block, Plain(rest), uoff, |content|);
    forall c | c in rest
      ensures Delivers(unpack, c, content, uoff + |first|)
    {
      AfterFirst(rest, uoff + |first|, |content|, c);
      DeliversShifted(unpack, c, first, content, uoff);
    }
  }

  lemma SoundMore(unpack: Unpack, b: Bzip2Record, rest: seq<Bzip2Record>, first: seq<byte>, content: seq<byte>, uoff: nat)
    requires Sound(unpack, rest, content, uoff + |first|) && b.block.usize == |first| && b.block.uoff == uoff
    requires DecompressBlock(unpack, b) == Some(first)
    ensures Sound(unpack, [b] + rest, first + content, uoff)
  {
    hide Covers, Delivers;
    assert Plain([b] + rest) == [b.block] + Plain(rest);
    CoversCons(b.block, Plain(rest), uoff, |content|);
    DeliversFirst(unpack, b, first, content, uoff);
    forall c | c in rest
      ensures Delivers(unpack, c, first + content, uoff)
    {
      AfterFirst(rest, uoff + |first|, |content|, c);
      DeliversShifted(unpack, c, first, content, uoff);
    }
  }

  lemma DeliversFirst(unpack: Unpack, b: Bzip2Record, first: seq<byte>, content: seq<byte>, uoff: nat)
    requires b.block.usize == |first| && b.block.uoff == uoff && DecompressBlock(unpack, b) == Some(first)
    ensures Delivers(unpack, b, first + content, uoff)
  {
    hide DecompressBlock;
    assert (first + content)[0..|first|] == first;
  }

  lemma MadeBlock(start: Boundary, end: Boundary, uoff: nat, usize: nat, level: byte)
    ensures MakeBlock(start, end, uoff, usize, level).block.uoff == uoff
    ensures usize < U32 ==> MakeBlock(start, end, uoff, usize, level).block.usize == usize
  {
  }

  lemma AfterFirst(rs: seq<Bzip2Record>, from: nat, total: nat, r: Bzip2Record)
    requires Covers(Plain(rs), from, total) && r in rs
    ensures from <= r.block.uoff
  {
    var i: nat :| i < |rs| && rs[i] == r;
    TiledAfter(Plain(rs), from, i);
  }

  lemma DeliversShifted(unpack: Unpack, b: Bzip2Record, first: seq<byte>, content: seq<byte>, uoff: nat)
    requires uoff + |first| <= b.block.uoff
    ensures Delivers(unpack, b, content, uoff + |first|) <==> Delivers(unpack, b, first + content, uoff)
  {
    hide DecompressBlock;
    var at, n := b.block.uoff - uoff, b.block.usize;
    if at + n <= |first + content| {
      assert (first + content)[at..at + n] == content[at - |first|..at - |first| + n];
    }
  }
}
