/** Building the index of a gzip file in one pass with rewinds (`GzipFile::buildIndex`). */
module GzipFile {
  import opened Bits
  import opened Blocks
  import opened Deflate
  import opened GzipLayout
  import opened GzipReader
  import opened GzipSpec
  import opened Wrappers

  // ----- The block list -----

  function Fixed(bs: seq<GzipRecord>, uoff: nat, coff: nat): (r: seq<GzipRecord>)
    ensures |r| == |bs|
  {
    if bs == [] then []
    else
      var p := bs[|bs| - 1];
      bs[..|bs| - 1] + [GzipBlock(p.block.(usize := (uoff - p.block.uoff) % U32, csize := (coff - p.block.coff) % U32), p.bits, p.dict)]
  }

  /** The list while the last entry still lacks its sizes. */
  function Pending(es: seq<Entry>): (bs: seq<GzipRecord>)
    ensures |bs| == |es|
  {
    if es == [] then []
    else
      var n := |es| - 1;
      Fixed(Pending(es[..n]), es[n].uoff, es[n].coff) + [GzipBlock(Blocks.Block(0, 0, es[n].uoff, es[n].coff), es[n].bits, es[n].dict)]
  }

  // ----- The live reader -----

  ghost predicate DecodesTo(f: GzFile, k: nat) {
    forall j: nat | j < k && j < |f.items| && f.items[j].Block? :: Decode(MemberOut(f, j), f.items[j].toks).ok
  }

  /** The stream knows all of its member so far, or at least more than a window of it. */
  ghost predicate KnowsEnough(f: GzFile, k: nat, z: ZStream)
    requires k < |f.items|
  {
    var m, n := MemberOut(f, k), |z.hist|;
    if f.items[k].Header? then z.mode == Gzip && z.clean && z.hist == []
    else !z.clean && n <= |m| && m[|m| - n..] == z.hist && (n == |m| || WINDOW < n)
  }

  /** A reader whose decode is the decode of the whole file. */
  ghost predicate Good(f: GzFile, bytes: seq<byte>, s: State, fpos: nat, k: nat) {
    && Standing(f, bytes, s, fpos, k) && DecodesTo(f, k) && KnowsEnough(f, k, s.z)
    && s.Opos() == |Out(f, k)| && Emitted(s, Out(f, k)[s.initOutPos..])
  }

  /** A good reader decodes a block just as the full decode does. */
  lemma KnownDecode(f: GzFile, k: nat, z: ZStream)
    requires k < |f.items| && f.items[k].Block? && KnowsEnough(f, k, z)
    ensures Decode(z.hist, f.items[k].toks) == Decode(MemberOut(f, k), f.items[k].toks)
    ensures Takes(z, f.items[k])
  {
    hide Decode;
    var m, n := MemberOut(f, k), |z.hist|;
    if n < |m| {
      assert m == m[..|m| - n] + z.hist;
      WindowEnough(m[..|m| - n], z.hist, f.items[k].toks);
    }
  }

  /** Reading on with a good reader: it stays good, or the file is damaged. */
  lemma GoodBlock(f: GzFile, bytes: seq<byte>, s0: State, fpos0: nat, s: State, fpos: nat, k: nat, status: Status)
    requires Good(f, bytes, s0, fpos0, k) && Finished(f, bytes, s0, s, fpos, k, Out(f, k)[s0.initOutPos..], status)
    ensures s.initOutPos == s0.initOutPos
    ensures match f.items[k]
            case Header => status == OK && Good(f, bytes, s, fpos, k + 1)
            case Trailer => status == StreamEnd && Ended(f, bytes, s, fpos, k) && Emitted(s, Out(f, k)[s.initOutPos..])
            case Block(toks) =>
              if Decode(MemberOut(f, k), toks).ok then status == OK && Good(f, bytes, s, fpos, k + 1)
              else status == DataError
  {
    hide Decode, Emitted, Standing, Ended, Out, ItemOut, MemberOut, KnowsEnough, Takes, DecodesTo;
    StandingInside(f, bytes, s0, fpos0, k);
    OutStep(f, k);
    EmittedCount(s0, Out(f, k)[s0.initOutPos..]);
    KnowsTakes(f, k, s0.z);
    match f.items[k]
    case Header =>
      SameOut(f, k);
      EmittedCount(s, Out(f, k)[s0.initOutPos..]);
      StandingFollows(f, bytes, s, fpos, k + 1);
      KnowsHeader(f, k, s0.z, s.z);
    case Trailer =>
    case Block(toks) =>
      KnownDecode(f, k, s0.z);
      var d := Decode(MemberOut(f, k), toks);
      if d.ok {
        ItsOut(f, k);
        assert (Out(f, k) + d.out)[s0.initOutPos..] == Out(f, k)[s0.initOutPos..] + d.out;
        EmittedCount(s, Out(f, k + 1)[s0.initOutPos..]);
        StandingFollows(f, bytes, s, fpos, k + 1);
        KnowsMore(f, k, s0.z, s.z);
      }
  }

  lemma KnowsTakes(f: GzFile, k: nat, z: ZStream)
    requires k < |f.items| && KnowsEnough(f, k, z)
    ensures Takes(z, f.items[k])
  {
  }

  lemma ItsOut(f: GzFile, k: nat)
    requires k < |f.items| && f.items[k].Block?
    ensures ItemOut(f, k) == Decode(MemberOut(f, k), f.items[k].toks).out
  {
  }

  lemma KnowsHeader(f: GzFile, k: nat, z: ZStream, z': ZStream)
    requires k + 1 < |f.items| && f.items[k].Header? && !f.items[k + 1].Header? && KnowsEnough(f, k, z) && DecodesTo(f, k)
    requires !z'.clean && z'.hist == z.hist
    ensures KnowsEnough(f, k + 1, z') && DecodesTo(f, k + 1)
  {
    hide Decode;
  }

  lemma KnowsMore(f: GzFile, k: nat, z: ZStream, z': ZStream)
    requires k + 1 < |f.items| && f.items[k].Block? && !f.items[k + 1].Header? && KnowsEnough(f, k, z) && DecodesTo(f, k)
    requires var d := Decode(MemberOut(f, k), f.items[k].toks); d.ok && z'.hist == z.hist + d.out && !z'.clean
    ensures KnowsEnough(f, k + 1, z') && DecodesTo(f, k + 1)
  {
    hide Decode, MemberOut;
    BlockOut(f, k);
    Suffix(MemberOut(f, k), z.hist, Decode(MemberOut(f, k), f.items[k].toks).out);
  }

  lemma Suffix(m: seq<byte>, h: seq<byte>, d: seq<byte>)
    requires |h| <= |m| && m[|m| - |h|..] == h
    ensures (m + d)[|m + d| - |h + d|..] == h + d
  {
  }

  lemma EmittedCount(s: State, e: seq<byte>)
    ensures Emitted(s, e) ==> s.outBytes == |e|
  {
  }

  lemma StandingInside(f: GzFile, bytes: seq<byte>, s: State, fpos: nat, k: nat)
    requires Standing(f, bytes, s, fpos, k)
    ensures k < |f.items| && WellFormed(f) && s.wrap == s.z.mode
    ensures k + 1 < |f.items| ==> MayFollow(f.items[k], f.items[k + 1])
    ensures !f.items[k].Trailer? ==> k + 1 < |f.items|
  {
  }

  /** The next member, after the trailer and a reset. */
  lemma GoodMember(f: GzFile, bytes: seq<byte>, s: State, fpos: nat, k: nat, e: seq<byte>)
    requires k + 1 < |f.items| && f.items[k].Trailer? && DecodesTo(f, k)
    requires s.initOutPos <= |Out(f, k)| && e == Out(f, k)[s.initOutPos..]
    requires Standing(f, bytes, s, fpos, k + 1) && Emitted(s, e)
    requires s.z.mode == Gzip && s.z.clean && s.z.hist == []
    ensures Good(f, bytes, s, fpos, k + 1)
  {
    hide Decode, Emitted, Standing;
    StandingFollows(f, bytes, s, fpos, k + 1);
    EmittedCount(s, e);
    assert Out(f, k + 1) == Out(f, k);
  }

  lemma StandingFollows(f: GzFile, bytes: seq<byte>, s: State, fpos: nat, k: nat)
    requires Standing(f, bytes, s, fpos, k) && 0 < k
    ensures k < |f.items| && MayFollow(f.items[k - 1], f.items[k])
  {
    assert k - 1 + 1 < |f.items|;
  }

  // ----- The trial reader -----

  /** A trial begun at boundary `t` has come to boundary `j`: it has put out what
      the full decode does there, at most a window of it, and how it will end
      is still open. */
  ghost predicate Trial(f: GzFile, bytes: seq<byte>, s: State, fpos: nat, t: nat, j: nat) {
    && Ready(f, bytes, s, fpos, j) && t <= j < |f.items| && DecodesTo(f, j)
    && s.z.mode == Raw && s.wrap == Raw && (s.z.clean <==> j == t)
    && s.initOutPos == |Out(f, t)| && |Out(f, t)| <= |Out(f, j)|
    && s.z.hist == Out(f, j)[|Out(f, t)|..] && Emitted(s, s.z.hist)
    && |s.z.hist| <= WINDOW && (j == t <==> s.z.hist == [])
    && |s.z.hist| <= |MemberOut(f, j)| && MemberOut(f, j)[|MemberOut(f, j)| - |s.z.hist|..] == s.z.hist
    && Survives(f, t, []) == Survives(f, j, s.z.hist)
    && (t < j ==> f.items[t].Block? && !f.items[j].Header? && Judge(f, t) != Empty)
  }

  lemma TrialStart(f: GzFile, bytes: seq<byte>, s0: State, fpos0: nat, s: State, fpos: nat, t: nat)
    requires Good(f, bytes, s0, fpos0, t)
    requires Ready(f, bytes, s, fpos, t) && Emitted(s, [])
    requires s.z.mode == Raw && s.z.clean && s.z.hist == [] && s.initOutPos == s0.Opos()
    ensures Trial(f, bytes, s, fpos, t, t)
  {
    hide Decode, Emitted, Survives, Judge;
  }

  /** A trial that stops is the verdict on the boundary it began at. */
  lemma TrialStops(f: GzFile, bytes: seq<byte>, s0: State, fpos0: nat, s: State, fpos: nat, t: nat, j: nat, status: Status)
    requires Trial(f, bytes, s0, fpos0, t, j) && Finished(f, bytes, s0, s, fpos, j, s0.z.hist, status) && status != OK
    ensures status == DataError ==> Judge(f, t) == Dependent
    ensures status == StreamEnd ==> Judge(f, t) == Independent && t < j
    ensures status == RunsOut <==> Hungry(f, t)
  {
    hide Decode, Emitted, Standing, Ended, Ready, Out, SelfContained;
    ReadyIn(f, bytes, s0, fpos0, j);
  }

  /** A trial that goes on knows what the full decode knows. */
  lemma TrialGoesOn(f: GzFile, bytes: seq<byte>, s0: State, fpos0: nat, s: State, fpos: nat, t: nat, j: nat)
    requires Trial(f, bytes, s0, fpos0, t, j) && Finished(f, bytes, s0, s, fpos, j, s0.z.hist, OK)
    ensures Ready(f, bytes, s, fpos, j + 1) && j + 1 < |f.items| && !f.items[j + 1].Header? && f.items[j].Block? && DecodesTo(f, j + 1)
    ensures Decode(s0.z.hist, f.items[j].toks).ok && s.z.hist == s0.z.hist + Decode(s0.z.hist, f.items[j].toks).out
    ensures s.z.mode == Raw && !s.z.clean && Emitted(s, s.z.hist) && s.outBytes == |s.z.hist|
    ensures |Out(f, t)| <= |Out(f, j + 1)| && s.z.hist == Out(f, j + 1)[|Out(f, t)|..]
    ensures |s.z.hist| <= |MemberOut(f, j + 1)| && MemberOut(f, j + 1)[|MemberOut(f, j + 1)| - |s.z.hist|..] == s.z.hist
  {
    hide Decode, Emitted, Standing, Ended, Ready, Out, MemberOut, Survives, Judge, DecodesTo;
    ReadyIn(f, bytes, s0, fpos0, j);
    TrialGrows(f, bytes, s0, fpos0, t, j);
    EmittedCount(s, s.z.hist);
    StandingInside(f, bytes, s, fpos, j + 1);
    StandingFollows(f, bytes, s, fpos, j + 1);
    StandingReady(f, bytes, s, fpos, j + 1);
  }

  /** A trial past a full window is as good as the reader it was begun for. */
  lemma TrialSettled(f: GzFile, bytes: seq<byte>, s0: State, fpos0: nat, s: State, fpos: nat, t: nat, j: nat)
    requires Trial(f, bytes, s0, fpos0, t, j) && Finished(f, bytes, s0, s, fpos, j, s0.z.hist, OK) && WINDOW < s.outBytes
    ensures Judge(f, t) == Independent
    ensures j == t ==> Good(f, bytes, s, fpos, t + 1) && s.Opos() == |Out(f, t + 1)|
  {
    hide Decode, Emitted, Standing, Ended, Ready, Out, SelfContained, MemberOut, DecodesTo;
    TrialGoesOn(f, bytes, s0, fpos0, s, fpos, t, j);
    assert [] + Decode([], f.items[j].toks).out == Decode([], f.items[j].toks).out;
  }

  /** A trial that has not filled a window stays open, unless it has put out nothing. */
  lemma TrialOpen(f: GzFile, bytes: seq<byte>, s0: State, fpos0: nat, s: State, fpos: nat, t: nat, j: nat)
    requires Trial(f, bytes, s0, fpos0, t, j) && Finished(f, bytes, s0, s, fpos, j, s0.z.hist, OK) && s.outBytes <= WINDOW
    ensures s.outBytes == 0 ==> Judge(f, t) == Empty
    ensures 0 < s.outBytes ==> Trial(f, bytes, s, fpos, t, j + 1)
  {
    hide Decode, Emitted, Standing, Ended, Ready, Out, SelfContained, MemberOut, DecodesTo;
    TrialGoesOn(f, bytes, s0, fpos0, s, fpos, t, j);
    assert [] + Decode([], f.items[j].toks).out == Decode([], f.items[j].toks).out;
  }

  /** What one more block does to a trial. */
  lemma TrialBlock(f: GzFile, bytes: seq<byte>, s0: State, fpos0: nat, s: State, fpos: nat, t: nat, j: nat, status: Status)
    requires Trial(f, bytes, s0, fpos0, t, j) && Finished(f, bytes, s0, s, fpos, j, s0.z.hist, status)
    ensures s.initOutPos == s0.initOutPos
    ensures status == DataError ==> Judge(f, t) == Dependent
    ensures status == StreamEnd ==> Judge(f, t) == Independent && t < j
    ensures status == RunsOut <==> Hungry(f, t)
    ensures status == OK && WINDOW < s.outBytes ==> Judge(f, t) == Independent
    ensures status == OK && WINDOW < s.outBytes && j == t ==> Good(f, bytes, s, fpos, t + 1) && s.Opos() == |Out(f, t + 1)|
    ensures status == OK && s.outBytes == 0 ==> Judge(f, t) == Empty
    ensures status == OK && 0 < s.outBytes <= WINDOW ==> Trial(f, bytes, s, fpos, t, j + 1)
  {
    hide Trial, Judge, Good, Standing, Ended, Out;
    if status != OK {
      TrialStops(f, bytes, s0, fpos0, s, fpos, t, j, status);
    } else {
      TrialGoesOn(f, bytes, s0, fpos0, s, fpos, t, j);
      NotHungry(f, bytes, s0, fpos0, t, j);
      if WINDOW < s.outBytes {
        TrialSettled(f, bytes, s0, fpos0, s, fpos, t, j);
      } else {
        TrialOpen(f, bytes, s0, fpos0, s, fpos, t, j);
      }
    }
  }

  /** A trial that reads a block did not begin at a trailer. */
  lemma NotHungry(f: GzFile, bytes: seq<byte>, s: State, fpos: nat, t: nat, j: nat)
    requires Trial(f, bytes, s, fpos, t, j) && f.items[j].Block?
    ensures !Hungry(f, t)
  {
    hide Decode, Emitted, Ready, Out, Survives, Judge;
  }

  lemma ReadyIn(f: GzFile, bytes: seq<byte>, s: State, fpos: nat, k: nat)
    requires Ready(f, bytes, s, fpos, k)
    ensures WellFormed(f) && k < |f.items|
  {
  }

  /** A block that decodes in a trial decodes the same in the whole file. */
  lemma TrialGrows(f: GzFile, bytes: seq<byte>, s: State, fpos: nat, t: nat, j: nat)
    requires Trial(f, bytes, s, fpos, t, j) && f.items[j].Block? && Decode(s.z.hist, f.items[j].toks).ok
    ensures var d := Decode(s.z.hist, f.items[j].toks); var hist := s.z.hist + d.out;
            && Decode(MemberOut(f, j), f.items[j].toks) == d && DecodesTo(f, j + 1)
            && |Out(f, t)| <= |Out(f, j + 1)| && hist == Out(f, j + 1)[|Out(f, t)|..]
            && |hist| <= |MemberOut(f, j + 1)| && MemberOut(f, j + 1)[|MemberOut(f, j + 1)| - |hist|..] == hist
  {
    hide Decode, Emitted, Ready, Survives, Judge, Out;
    var h, m, toks := s.z.hist, MemberOut(f, j), f.items[j].toks;
    assert m == m[..|m| - |h|] + h;
    SuffixAgrees(m[..|m| - |h|], h, toks);
    OutStep(f, j);
    TailGrows(Out(f, j), m, |Out(f, t)|, h, Decode(h, toks).out);
  }

  lemma TailGrows(o: seq<byte>, m: seq<byte>, u: nat, h: seq<byte>, d: seq<byte>)
    requires u <= |o| && h == o[u..] && |h| <= |m| && m[|m| - |h|..] == h
    ensures h + d == (o + d)[u..] && h + d == (m + d)[|m + d| - |h + d|..]
  {
  }

  // ----- Progress of the indexer -----

  /** `es` are the entries made so far; boundary `k` is the next to decide. */
  ghost predicate Indexed(f: GzFile, minBlock: nat, es: seq<Entry>, k: nat, last: nat) {
    && 1 <= k <= |f.items| < |f.ends|
    && Entries(f, minBlock, 1, 0) == es + Entries(f, minBlock, k, last)
  }

  lemma IndexIndependent(f: GzFile, minBlock: nat, es: seq<Entry>, k: nat, last: nat)
    requires Indexed(f, minBlock, es, k, last) && k < |f.items| && Judge(f, k) == Independent
    ensures Indexed(f, minBlock, es + [EntryAt(f, k, [])], k + 1, |Out(f, k)|)
  {
    hide Judge, Out;
  }

  lemma IndexEmpty(f: GzFile, minBlock: nat, es: seq<Entry>, k: nat, last: nat)
    requires Indexed(f, minBlock, es, k, last) && k < |f.items| && Judge(f, k) == Empty
    ensures Indexed(f, minBlock, es, k + 1, last)
  {
    hide Judge, Out;
  }

  lemma IndexDependent(f: GzFile, minBlock: nat, es: seq<Entry>, k: nat, last: nat)
    requires Indexed(f, minBlock, es, k, last) && k < |f.items| && Judge(f, k) == Dependent
    ensures if |Out(f, k)| - last > minBlock
            then Indexed(f, minBlock, es + [EntryAt(f, k, LastWindow(Out(f, k)))], k + 1, |Out(f, k)|)
            else Indexed(f, minBlock, es, k + 1, last)
  {
    hide Judge, Out;
  }

  /** The live reader is good, has its window from the last entry on, and
      stands at boundary `k`; boundaries below `next` are decided. */
  ghost predicate Reading(f: GzFile, bytes: seq<byte>, s: State, fpos: nat, k: nat, minBlock: nat, es: seq<Entry>, last: nat, next: nat) {
    && Good(f, bytes, s, fpos, k) && s.initOutPos <= last <= |Out(f, k)| && Indexed(f, minBlock, es, next, last)
  }

  /** A trial from boundary `t` is under way, with a reading reader put aside. */
  ghost predicate Trying(f: GzFile, bytes: seq<byte>, s: State, fpos: nat, saved: Option<State>, saveSeek: nat,
                         t: nat, j: nat, minBlock: nat, es: seq<Entry>, last: nat) {
    && saved.Some? && Reading(f, bytes, saved.value, saveSeek, t, minBlock, es, last, t)
    && Trial(f, bytes, s, fpos, t, j)
  }

  lemma ReadFurther(f: GzFile, bytes: seq<byte>, s0: State, fpos0: nat, s: State, fpos: nat, k: nat, minBlock: nat, es: seq<Entry>, last: nat, status: Status)
    requires Reading(f, bytes, s0, fpos0, k, minBlock, es, last, k + 1)
    requires Finished(f, bytes, s0, s, fpos, k, Out(f, k)[s0.initOutPos..], status)
    ensures status == OK ==> Reading(f, bytes, s, fpos, k + 1, minBlock, es, last, k + 1)
    ensures status == StreamEnd ==> f.items[k].Trailer? && Ended(f, bytes, s, fpos, k) && Emitted(s, Out(f, k)[s.initOutPos..])
                                    && DecodesTo(f, k) && s.initOutPos == s0.initOutPos <= last <= |Out(f, k)| && Indexed(f, minBlock, es, k + 1, last)
    ensures status == DataError ==> !Decodes(f)
    ensures status != RunsOut
  {
    hide Decode, Emitted, Standing, Ended, Out, Indexed;
    GoodBlock(f, bytes, s0, fpos0, s, fpos, k, status);
    OutGrows(f, k, k + 1);
  }

  lemma NextMember(f: GzFile, bytes: seq<byte>, s: State, fpos: nat, k: nat, minBlock: nat, es: seq<Entry>, last: nat)
    requires k + 1 < |f.items| && f.items[k].Trailer? && DecodesTo(f, k)
    requires s.initOutPos <= last <= |Out(f, k)| && Indexed(f, minBlock, es, k + 1, last)
    requires Standing(f, bytes, s, fpos, k + 1) && Emitted(s, Out(f, k)[s.initOutPos..])
    requires s.z.mode == Gzip && s.z.clean && s.z.hist == []
    ensures Reading(f, bytes, s, fpos, k + 1, minBlock, es, last, k + 1)
  {
    hide Decode, Emitted, Standing, Indexed;
    GoodMember(f, bytes, s, fpos, k, Out(f, k)[s.initOutPos..]);
    OutGrows(f, k, k + 1);
  }

  /** What the indexer notes about a boundary is what an entry there holds. */
  lemma Noted(f: GzFile, bytes: seq<byte>, s: State, fpos: nat, k: nat)
    requires Good(f, bytes, s, fpos, k)
    ensures k < |f.items| < |f.ends| && 0 <= Ipos(s, fpos)
    ensures forall dict: seq<byte> :: Entry(k, s.Opos(), Ipos(s, fpos), s.Ibits(), dict) == EntryAt(f, k, dict)
  {
    hide Decode, Emitted, Out;
  }

  /** The window kept for a dependent boundary. */
  lemma WindowOf(f: GzFile, bytes: seq<byte>, s: State, fpos: nat, k: nat, dict: seq<byte>, last: nat)
    requires Good(f, bytes, s, fpos, k) && s.initOutPos <= last && |Out(f, k)| - last > WINDOW
    ensures var e := Out(f, k)[s.initOutPos..];
            WINDOW < |e| && (dict == e[|e| - WINDOW..] ==> dict == LastWindow(Out(f, k)))
  {
    hide Decode, Emitted, Out;
  }

  /** The finished list: every entry's sizes run to the next entry, or the end of the file. */
  ghost predicate Sized(bs: seq<GzipRecord>, es: seq<Entry>, uend: nat, cend: nat) {
    |bs| == |es| && forall i: nat | i < |es| :: bs[i] == SizedBlock(es, i, uend, cend)
  }

  function SizedBlock(es: seq<Entry>, i: nat, uend: nat, cend: nat): GzipRecord
    requires i < |es|
  {
    var u := if i + 1 < |es| then es[i + 1].uoff else uend;
    var c := if i + 1 < |es| then es[i + 1].coff else cend;
    GzipBlock(Blocks.Block((u - es[i].uoff) % U32, (c - es[i].coff) % U32, es[i].uoff, es[i].coff), es[i].bits, es[i].dict)
  }

  lemma {:induction false} PendingSized(es: seq<Entry>, uend: nat, cend: nat)
    ensures Sized(Fixed(Pending(es), uend, cend), es, uend, cend)
    decreases |es|
  {
    hide Fixed;
    if es != [] {
      var n := |es| - 1;
      PendingSized(es[..n], es[n].uoff, es[n].coff);
      FixedOne(Fixed(Pending(es[..n]), es[n].uoff, es[n].coff), es, uend, cend);
    }
  }

  lemma FixedOne(bs: seq<GzipRecord>, es: seq<Entry>, uend: nat, cend: nat)
    requires es != [] && var n := |es| - 1; Sized(bs, es[..n], es[n].uoff, es[n].coff)
    ensures var n := |es| - 1;
            Sized(Fixed(bs + [GzipBlock(Blocks.Block(0, 0, es[n].uoff, es[n].coff), es[n].bits, es[n].dict)], uend, cend), es, uend, cend)
  {
    var n := |es| - 1;
    var all := bs + [GzipBlock(Blocks.Block(0, 0, es[n].uoff, es[n].coff), es[n].bits, es[n].dict)];
    var done := Fixed(all, uend, cend);
    assert done[..n] == all[..n] == bs;
    forall i: nat | i < |es|
      ensures done[i] == SizedBlock(es, i, uend, cend)
    {
      if i < n {
        FixedEarlier(bs, es, i);
        assert done[i] == done[..n][i];
      }
    }
  }

  lemma FixedEarlier(bs: seq<GzipRecord>, es: seq<Entry>, i: nat)
    requires es != [] && var n := |es| - 1; i < n && Sized(bs, es[..n], es[n].uoff, es[n].coff)
    ensures bs[i] == SizedBlock(es, i, 0, 0)
  {
    var n := |es| - 1;
    assert bs[i] == SizedBlock(es[..n], i, es[n].uoff, es[n].coff);
  }

  /** A reading reader can read, and so can a trial. */
  lemma ReadingReady(f: GzFile, bytes: seq<byte>, s: State, fpos: nat, k: nat, minBlock: nat, es: seq<Entry>, last: nat, next: nat)
    requires Reading(f, bytes, s, fpos, k, minBlock, es, last, next)
    ensures Standing(f, bytes, s, fpos, k) && Ready(f, bytes, s, fpos, k) && k < |f.items| && s.initOutPos <= |Out(f, k)|
    ensures Emitted(s, Out(f, k)[s.initOutPos..])
  {
  }

  lemma TryingReady(f: GzFile, bytes: seq<byte>, s: State, fpos: nat, saved: Option<State>, saveSeek: nat,
                    t: nat, j: nat, minBlock: nat, es: seq<Entry>, last: nat)
    requires Trying(f, bytes, s, fpos, saved, saveSeek, t, j, minBlock, es, last)
    ensures Ready(f, bytes, s, fpos, j) && Emitted(s, s.z.hist) && saved.Some?
  {
    hide Decode, Reading;
  }

  /** A new trial from the boundary the reader stands at. */
  lemma TrySaved(f: GzFile, bytes: seq<byte>, s0: State, fpos0: nat, s: State, fpos: nat, saved: Option<State>, saveSeek: nat,
                 k: nat, minBlock: nat, es: seq<Entry>, last: nat)
    requires Reading(f, bytes, s0, fpos0, k, minBlock, es, last, k) && saved == Some(s0) && saveSeek == fpos0
    requires Ready(f, bytes, s, fpos, k) && Emitted(s, [])
    requires s.z.mode == Raw && s.z.clean && s.z.hist == [] && s.initOutPos == s0.Opos()
    ensures Trying(f, bytes, s, fpos, saved, saveSeek, k, k, minBlock, es, last)
    ensures k < |f.items| < |f.ends| && Entry(k, s0.Opos(), Ipos(s0, fpos0), s0.Ibits(), []) == EntryAt(f, k, [])
    ensures s0.Opos() == |Out(f, k)|
  {
    hide Decode, Ready, Emitted, Trial, Indexed, EntryAt, Out;
    TrialStart(f, bytes, s0, fpos0, s, fpos, k);
    Noted(f, bytes, s0, fpos0, k);
  }

  /** What one more block of a trial tells. */
  lemma TryOn(f: GzFile, bytes: seq<byte>, s0: State, fpos0: nat, s: State, fpos: nat, saved: Option<State>, saveSeek: nat,
              t: nat, j: nat, minBlock: nat, es: seq<Entry>, last: nat, status: Status)
    requires Trying(f, bytes, s0, fpos0, saved, saveSeek, t, j, minBlock, es, last)
    requires Finished(f, bytes, s0, s, fpos, j, s0.z.hist, status)
    ensures t <= j < |f.items| < |f.ends| && (status == RunsOut <==> Hungry(f, t))
    ensures status == StreamEnd || (status == OK && WINDOW < s.outBytes) ==>
              var es' := es + [EntryAt(f, t, [])];
              && Reading(f, bytes, saved.value, saveSeek, t, minBlock, es', |Out(f, t)|, t + 1)
              && (j == t ==> status == OK && Reading(f, bytes, s, fpos, t + 1, minBlock, es', |Out(f, t)|, t + 1))
    ensures status == OK && s.outBytes == 0 ==> Reading(f, bytes, saved.value, saveSeek, t, minBlock, es, last, t + 1)
    ensures status == OK && 0 < s.outBytes <= WINDOW ==>
              j + 1 < |f.items| && Trying(f, bytes, s, fpos, saved, saveSeek, t, j + 1, minBlock, es, last)
    ensures status == DataError ==> Judge(f, t) == Dependent && Reading(f, bytes, saved.value, saveSeek, t, minBlock, es, last, t)
  {
    hide Decode, Emitted, Indexed, Finished, Ready, Judge, Survives;
    TrialBlock(f, bytes, s0, fpos0, s, fpos, t, j, status);
    ReadyIn(f, bytes, s0, fpos0, j);
    if Judge(f, t) == Independent {
      IndexIndependent(f, minBlock, es, t, last);
      if status == OK && j == t {
        OutGrows(f, t, t + 1);
      }
    } else if Judge(f, t) == Empty {
      IndexEmpty(f, minBlock, es, t, last);
    }
  }

  /** A failed trial leaves a dependent boundary, which is kept if it is far enough. */
  lemma TryFailed(f: GzFile, bytes: seq<byte>, s: State, fpos: nat, t: nat, minBlock: nat, es: seq<Entry>, last: nat)
    requires Reading(f, bytes, s, fpos, t, minBlock, es, last, t) && Judge(f, t) == Dependent && WINDOW <= minBlock
    ensures t < |f.items| < |f.ends| && s.Opos() == |Out(f, t)| && last <= s.Opos() && 0 <= Ipos(s, fpos)
    ensures s.Opos() - last <= minBlock ==> Reading(f, bytes, s, fpos, t, minBlock, es, last, t + 1)
    ensures s.Opos() - last > minBlock ==>
              var e := Out(f, t)[s.initOutPos..];
              && Emitted(s, e) && WINDOW < |e|
              && var entry := Entry(t, s.Opos(), Ipos(s, fpos), s.Ibits(), e[|e| - WINDOW..]);
                 Reading(f, bytes, s, fpos, t, minBlock, es + [entry], s.Opos(), t + 1)
  {
    hide Decode, Emitted, Indexed, Judge, Standing, Out, LastWindow;
    Noted(f, bytes, s, fpos, t);
    IndexDependent(f, minBlock, es, t, last);
    if s.Opos() - last > minBlock {
      var e := Out(f, t)[s.initOutPos..];
      WindowOf(f, bytes, s, fpos, t, [], last);
      WindowOf(f, bytes, s, fpos, t, e[|e| - WINDOW..], last);
    }
  }

  lemma AtEnd(f: GzFile, bytes: seq<byte>, s: State, fpos: nat, k: nat, minBlock: nat, es: seq<Entry>, last: nat)
    requires PastTrailer(f, bytes, s, fpos, k) && DecodesTo(f, k) && Indexed(f, minBlock, es, k + 1, last)
    ensures k < |f.items| && (Ipos(s, fpos) == |bytes| <==> k + 1 == |f.items|)
    ensures k + 1 == |f.items| ==> Decodes(f) && Entries(f, minBlock, 1, 0) == es && Out(f, k + 1) == Out(f, k)
  {
    hide Decode;
    BytesBound(f, bytes, k);
    if k + 1 < |f.items| {
      BytesIncrease(f, k + 1, |f.items|);
    }
    assert ItemFits(f, k);
  }

  class GzipFile {
    const mBlockFactor: nat
    var mBlocks: seq<GzipRecord>

    constructor (blockFactor: nat)
      ensures mBlockFactor == blockFactor && mBlocks == []
    {
      mBlockFactor, mBlocks := blockFactor, [];
    }

    /** The last entry runs up to here. */
    method SetLastBlockSize(uoff: nat, coff: nat)
      modifies this
      ensures mBlocks == Fixed(old(mBlocks), uoff, coff)
    {
      if mBlocks == [] {
        return;
      }
      var p := mBlocks[|mBlocks| - 1];
      mBlocks := mBlocks[|mBlocks| - 1 := GzipBlock(p.block.(usize := (uoff - p.block.uoff) % U32, csize := (coff - p.block.coff) % U32), p.bits, p.dict)];
    }

    method AddBlock(uoff: nat, coff: nat, bits: nat, dict: seq<byte>, ghost es: seq<Entry>, ghost e: Entry)
      requires mBlocks == Pending(es) && e == Entry(e.at, uoff, coff, bits, dict)
      modifies this
      ensures mBlocks == Pending(es + [e])
    {
      SetLastBlockSize(uoff, coff);
      mBlocks := mBlocks + [GzipBlock(Blocks.Block(0, 0, uoff, coff), bits, dict)];
      assert (es + [e])[..|es|] == es;
    }

    /** Judges every boundary of the file by a trial from it, and files the
        independent ones, and the dependent ones that are more than the minimum
        block size on, with their windows. The file is rejected when a block does not decode,
        or a trial at a trailer runs past the end of the file. A trial goes
        astray when the byte to prime it with is not in the input buffer. */
    method BuildIndex(f: GzFile, bytes: seq<byte>) returns (ok: bool, astray: bool)
      requires IsFile(f, bytes) && 1 <= mBlockFactor && mBlocks == []
      modifies this
      ensures !astray ==> (ok <==> Decodes(f) && forall k: nat :: !Hungry(f, k))
      ensures astray ==> !ok
      ensures ok ==> Sized(mBlocks, Entries(f, mBlockFactor * WINDOW, 1, 0), |Out(f, |f.items|)|, |bytes|)
    {
      hide Decode, Decodes, Reading, Trying, Ready, Standing, Ended, Emitted, Finished, PastTrailer, Indexed, Trial, Good, Judge, Entries, EntryAt;
      hide Pending, Sized, DecodesTo, LastWindow, Out, Inside, IsFile, Hungry;
      astray := false;
      var rd := new SavingGzipReader(f, bytes);
      var minBlock := mBlockFactor * WINDOW;
      assert WINDOW <= minBlock;

      var indep := false;     // a trial is under way
      var backtrack := false; // and has passed another boundary
      var uoff: nat, coff: nat, bits: nat := 0, 0, 0;
      var lastIdx: nat := 0;  // where the last entry is
      ghost var es: seq<Entry> := [];
      ghost var k, j := 0, 0;
      AtStart(f, bytes, rd.live, rd.fpos, minBlock);
      while true
        invariant fresh(rd) && rd.f == f && rd.bytes == bytes && IsFile(f, bytes) && k < |f.items| < |f.ends|
        invariant mBlocks == Pending(es)
        invariant forall i: nat | i < k || (i == k && !indep) :: !Hungry(f, i)
        invariant !indep ==> Reading(f, bytes, rd.live, rd.fpos, k, minBlock, es, lastIdx, k + 1)
        invariant indep ==> Trying(f, bytes, rd.live, rd.fpos, rd.saved, rd.saveSeek, k, j, minBlock, es, lastIdx)
        invariant indep ==> k <= j < |f.items| && backtrack == (k < j) && Entry(k, uoff, coff, bits, []) == EntryAt(f, k, []) && uoff == |Out(f, k)|
        decreases |f.items| - k, if indep then 1 else 0, if indep then |f.items| - j else 0
      {
        ghost var s0, fpos0, at := rd.live, rd.fpos, if indep then j else k;
        ghost var e: seq<byte>;
        if indep {
          TryingReady(f, bytes, rd.live, rd.fpos, rd.saved, rd.saveSeek, k, j, minBlock, es, lastIdx);
          e := rd.live.z.hist;
        } else {
          ReadingReady(f, bytes, rd.live, rd.fpos, k, minBlock, es, lastIdx, k + 1);
          e := Out(f, k)[rd.live.initOutPos..];
        }
        var err := rd.Block(at, e);
        if indep {
          TryOn(f, bytes, s0, fpos0, rd.live, rd.fpos, rd.saved, rd.saveSeek, k, j, minBlock, es, lastIdx, err);
        } else {
          ReadFurther(f, bytes, s0, fpos0, rd.live, rd.fpos, k, minBlock, es, lastIdx, err);
        }
        if err == RunsOut {
          return false, false; // EOFException
        } else if err == OK || err == StreamEnd {
          if indep {
            if rd.live.outBytes > WINDOW || err == StreamEnd { // boundary k is independent
              AddBlock(uoff, coff, bits, [], es, EntryAt(f, k, []));
              es := es + [EntryAt(f, k, [])];
              lastIdx, indep := uoff, false;
              if backtrack {
                rd.Restore();
                continue; // boundary k + 1 is next
              }
              // otherwise the trial stands at boundary k + 1 itself
            } else if rd.live.outBytes == 0 { // boundary k is empty
              indep := false;
              rd.Restore();
              continue;
            } else { // still open, at boundary j + 1
              backtrack := true;
              j := j + 1;
            }
          }
          ghost var done := k;
          if err == StreamEnd {
            rd.SkipFooter(k, e);
            AtEnd(f, bytes, rd.live, rd.fpos, k, minBlock, es, lastIdx);
            if Ipos(rd.live, rd.fpos) == |bytes| {
              break;
            }
            rd.Reset(Gzip, k, e);
            NextMember(f, bytes, rd.live, rd.fpos, k, minBlock, es, lastIdx);
          }
          if !indep { // judge boundary k + 1
            k := k + 1;
            ReadingReady(f, bytes, rd.live, rd.fpos, k, minBlock, es, lastIdx, k);
            uoff, coff, bits := rd.live.Opos(), Ipos(rd.live, rd.fpos), rd.live.Ibits();
            s0, fpos0 := rd.live, rd.fpos;
            if !CanPrime(rd.live) {
              return false, true;
            }
            rd.Save(k);
            TrySaved(f, bytes, s0, fpos0, rd.live, rd.fpos, rd.saved, rd.saveSeek, k, minBlock, es, lastIdx);
            backtrack, indep := false, true;
            j := k;
          }
        } else { // a block does not decode
          if !indep {
            return false, false;
          }
          indep := false; // boundary k is dependent
          rd.Restore();
          TryFailed(f, bytes, rd.live, rd.fpos, k, minBlock, es, lastIdx);
          if rd.live.Opos() - lastIdx > minBlock { // far enough to keep its window
            e := Out(f, k)[rd.live.initOutPos..];
            var dict := rd.CopyWindow(e);
            ghost var entry := Entry(k, rd.live.Opos(), Ipos(rd.live, rd.fpos), rd.live.Ibits(), dict);
            AddBlock(rd.live.Opos(), Ipos(rd.live, rd.fpos), rd.live.Ibits(), dict, es, entry);
            es := es + [entry];
            lastIdx := rd.live.Opos();
          }
        }
      }
      NoMoreItems(f, k);
      SetLastBlockSize(rd.live.Opos(), Ipos(rd.live, rd.fpos));
      PendingSized(es, rd.live.Opos(), |bytes|);
      ok := true;
    }
  }

  lemma NoMoreItems(f: GzFile, k: nat)
    requires k + 1 == |f.items| && forall i: nat | i <= k :: !Hungry(f, i)
    ensures forall i: nat :: !Hungry(f, i)
  {
  }

  lemma AtStart(f: GzFile, bytes: seq<byte>, s: State, fpos: nat, minBlock: nat)
    requires Standing(f, bytes, s, fpos, 0) && Emitted(s, []) && s.initOutPos == 0
    requires s.wrap == Gzip && s.z.clean && s.z.hist == []
    ensures 0 < |f.items| < |f.ends| && Reading(f, bytes, s, fpos, 0, minBlock, [], 0, 1) && !Hungry(f, 0)
  {
    hide Emitted;
    EmittedCount(s, []);
  }
}
