/** What indexing a gzip file amounts to, one boundary at a time, and what the
    resulting index is good for. */
module GzipSpec {
  import opened Bits
  import opened Deflate
  import opened GzipLayout
  import opened Wrappers

  // ----- Trying a block with an empty window -----

  /** A trial that has put out `hist` stands at boundary `k`: does it survive
      past a full window, or to the end of its member? */
  predicate Survives(f: GzFile, k: nat, hist: seq<byte>)
    requires k <= |f.items|
    decreases |f.items| - k
  {
    if k == |f.items| then false
    else match f.items[k]
      case Header => false
      case Trailer => true
      case Block(toks) =>
        var d := Decode(hist, toks);
        d.ok && (WINDOW < |hist + d.out| || Survives(f, k + 1, hist + d.out))
  }

  /** Nothing up to the end of the member needs data from before the trial. */
  predicate SelfContained(f: GzFile, k: nat, hist: seq<byte>)
    requires k <= |f.items|
    decreases |f.items| - k
  {
    if k == |f.items| then false
    else match f.items[k]
      case Header => false
      case Trailer => true
      case Block(toks) =>
        var d := Decode(hist, toks);
        d.ok && SelfContained(f, k + 1, hist + d.out)
  }

  /** Surviving a full window is as good as surviving for good: the check the
      indexer can afford decides the question it cannot. */
  lemma {:induction false} TrialDecides(f: GzFile, k: nat, hist: seq<byte>, pre: seq<byte>)
    requires WellFormed(f) && Decodes(f) && k < |f.items|
    requires !f.items[k].Header? && MemberOut(f, k) == pre + hist
    ensures Survives(f, k, hist) <==> SelfContained(f, k, hist)
    decreases |f.items| - k
  {
    hide Decode;
    if f.items[k].Block? {
      var toks := f.items[k].toks;
      var d := Decode(hist, toks);
      if d.ok {
        SuffixAgrees(pre, hist, toks);
        assert MayFollow(f.items[k], f.items[k + 1]);
        assert MemberOut(f, k + 1) == pre + (hist + d.out);
        if WINDOW < |hist + d.out| {
          WindowContained(f, k + 1, hist + d.out, pre);
        } else {
          TrialDecides(f, k + 1, hist + d.out, pre);
        }
      }
    }
  }

  /** With more than a window of its own output, a decoder needs nothing else. */
  lemma {:induction false} WindowContained(f: GzFile, k: nat, hist: seq<byte>, pre: seq<byte>)
    requires WellFormed(f) && Decodes(f) && k < |f.items|
    requires !f.items[k].Header? && MemberOut(f, k) == pre + hist && WINDOW < |hist|
    ensures SelfContained(f, k, hist)
    decreases |f.items| - k
  {
    hide Decode;
    if f.items[k].Block? {
      var toks := f.items[k].toks;
      WindowEnough(pre, hist, toks);
      assert MayFollow(f.items[k], f.items[k + 1]);
      assert MemberOut(f, k + 1) == pre + (hist + Decode(hist, toks).out);
      WindowContained(f, k + 1, hist + Decode(hist, toks).out, pre);
    }
  }

  /** A trial started at a header or a trailer is taken to fail. */
  datatype Verdict = Independent | Dependent | Empty

  function Judge(f: GzFile, k: nat): Verdict
    requires k < |f.items|
  {
    if !f.items[k].Block? then Dependent
    else
      var d := Decode([], f.items[k].toks);
      if d.ok && d.out == [] then Empty
      else if Survives(f, k, []) then Independent else Dependent
  }

  /** The first block of a member is independent, unless it is empty. */
  lemma FirstBlock(f: GzFile, k: nat)
    requires WellFormed(f) && Decodes(f) && 0 < k < |f.items| && f.items[k - 1].Header?
    ensures Judge(f, k) != Dependent
  {
    hide Decode;
    assert MayFollow(f.items[k - 1], f.items[k]);
    AlwaysContained(f, k);
    TrialDecides(f, k, [], []);
  }

  lemma {:induction false} AlwaysContained(f: GzFile, k: nat)
    requires WellFormed(f) && Decodes(f) && k < |f.items| && !f.items[k].Header?
    ensures SelfContained(f, k, MemberOut(f, k))
    decreases |f.items| - k
  {
    hide Decode;
    if f.items[k].Block? {
      assert MayFollow(f.items[k], f.items[k + 1]);
      AlwaysContained(f, k + 1);
    }
  }

  // ----- The index -----

  /** An indexed boundary, with the window to start from. */
  datatype Entry = Entry(at: nat, uoff: nat, coff: nat, bits: nat, dict: seq<byte>)

  function EntryAt(f: GzFile, k: nat, dict: seq<byte>): Entry
    requires k < |f.items| < |f.ends|
  {
    Entry(k, |Out(f, k)|, Bytes(f.ends[k]), 8 * Bytes(f.ends[k]) - f.ends[k], dict)
  }

  function LastWindow(s: seq<byte>): seq<byte> {
    if |s| <= WINDOW then s else s[|s| - WINDOW..]
  }

  /** Whether boundary `k` is indexed, and how. `last` is the uncompressed
      position of the previous entry. */
  function Pick(f: GzFile, minBlock: nat, k: nat, last: nat): Option<Entry>
    requires k < |f.items| < |f.ends|
  {
    match Judge(f, k)
    case Independent => Some(EntryAt(f, k, []))
    case Empty => None
    case Dependent =>
      if |Out(f, k)| - last > minBlock then Some(EntryAt(f, k, LastWindow(Out(f, k)))) else None
  }

  /** The entries for the boundaries from `k` on. */
  function Entries(f: GzFile, minBlock: nat, k: nat, last: nat): seq<Entry>
    requires k <= |f.items| < |f.ends|
    decreases |f.items| - k
  {
    if k == |f.items| then []
    else match Pick(f, minBlock, k, last)
      case None => Entries(f, minBlock, k + 1, last)
      case Some(e) => [e] + Entries(f, minBlock, k + 1, e.uoff)
  }

  /** Where the last of the entries made before boundary `b` is. */
  function LastBefore(es: seq<Entry>, b: nat, last: nat): nat {
    if es == [] || b <= es[0].at then last else LastBefore(es[1..], b, es[0].uoff)
  }

  lemma {:induction false} PickedExactly(f: GzFile, minBlock: nat, k: nat, last: nat, b: nat)
    requires k <= b < |f.items| < |f.ends|
    ensures var es := Entries(f, minBlock, k, last); var p := Pick(f, minBlock, b, LastBefore(es, b, last));
            && (forall e | e in es && e.at == b :: p == Some(e))
            && (p.Some? ==> p.value in es && p.value.at == b)
    decreases |f.items| - k
  {
    hide Judge, Out, LastWindow;
    var p := Pick(f, minBlock, k, last);
    if p.Some? {
      var rest := Entries(f, minBlock, k + 1, p.value.uoff);
      assert ([p.value] + rest)[1..] == rest;
      if k < b {
        PickedExactly(f, minBlock, k + 1, p.value.uoff, b);
      } else {
        EntriesLater(f, minBlock, k + 1, p.value.uoff);
      }
    } else if k < b {
      PickedExactly(f, minBlock, k + 1, last, b);
    } else {
      EntriesLater(f, minBlock, k + 1, last);
    }
  }

  lemma {:induction false} EntriesLater(f: GzFile, minBlock: nat, k: nat, last: nat)
    requires k <= |f.items| < |f.ends|
    ensures var es := Entries(f, minBlock, k, last); (forall e | e in es :: k <= e.at) && (forall b: nat | b <= k :: LastBefore(es, b, last) == last)
    decreases |f.items| - k
  {
    hide Judge, Out, LastWindow;
    if k < |f.items| {
      var p := Pick(f, minBlock, k, last);
      EntriesLater(f, minBlock, k + 1, if p.Some? then p.value.uoff else last);
    }
  }

  /** The block at `b` puts nothing out. */
  predicate Silent(f: GzFile, b: nat)
    requires b < |f.items|
  {
    f.items[b].Block? && Decode([], f.items[b].toks) == Decoded([], true)
  }

  /** The rule of the index: every block that puts something out and needs
      nothing from before it has an entry without a window. Elsewhere, except at
      silent blocks, there is an entry exactly when more than the minimum block
      size has been put out since the last one, and it keeps the last window. */
  lemma EntriesExactly(f: GzFile, minBlock: nat, b: nat)
    requires WellFormed(f) && Decodes(f) && 1 <= b < |f.items|
    ensures var es := Entries(f, minBlock, 1, 0);
            var alone := f.items[b].Block? && !Silent(f, b) && SelfContained(f, b, []);
            var far := !Silent(f, b) && |Out(f, b)| - LastBefore(es, b, 0) > minBlock;
            var e := EntryAt(f, b, if alone then [] else LastWindow(Out(f, b)));
            && (e in es <==> alone || far)
            && (forall e' | e' in es && e'.at == b :: e' == e)
  {
    hide Decode, Out, Entries, SelfContained, Survives, LastWindow;
    PickedExactly(f, minBlock, 1, 0, b);
    if f.items[b].Block? {
      var pre := MemberIsTail(f, b);
      assert MemberOut(f, b) == MemberOut(f, b) + [];
      TrialDecides(f, b, [], MemberOut(f, b));
    }
  }

  // ----- Reading from an entry -----

  /** `GzipBlockReader::read`: decode from boundary `k`, starting with `hist`, until `n` bytes are out. */
  function ReadFrom(f: GzFile, k: nat, hist: seq<byte>, n: nat): Option<seq<byte>>
    requires k <= |f.items|
    decreases |f.items| - k
  {
    if n == 0 then Some([])
    else if k == |f.items| || !f.items[k].Block? then None
    else
      var d := Decode(hist, f.items[k].toks);
      if n <= |d.out| then Some(d.out[..n])
      else if !d.ok then None
      else match ReadFrom(f, k + 1, hist + d.out, n - |d.out|)
        case None => None
        case Some(rest) => Some(d.out + rest)
  }

  /** Where the member that boundary `k` is in ends. */
  function MemberEnd(f: GzFile, k: nat): (m: nat)
    requires k <= |f.items|
    ensures k <= m <= |f.items|
    decreases |f.items| - k
  {
    if k < |f.items| && f.items[k].Block? then MemberEnd(f, k + 1) else k
  }

  /** A decoder that starts at boundary `k` knowing `hist` sees what the full decode sees. */
  ghost predicate Tracks(f: GzFile, k: nat, hist: seq<byte>)
    requires k <= |f.items|
    decreases |f.items| - k
  {
    k < |f.items| && f.items[k].Block? ==>
      && Decode(hist, f.items[k].toks) == Decoded(ItemOut(f, k), true)
      && Tracks(f, k + 1, hist + ItemOut(f, k))
  }

  lemma {:induction false} TracksReads(f: GzFile, k: nat, hist: seq<byte>, n: nat)
    requires k <= |f.items| && Tracks(f, k, hist)
    requires |Out(f, k)| + n <= |Out(f, MemberEnd(f, k))|
    ensures ReadFrom(f, k, hist, n) == Some(Out(f, MemberEnd(f, k))[|Out(f, k)|..|Out(f, k)| + n])
    decreases |f.items| - k
  {
    hide Decode, ItemOut, Out;
    if n == 0 {
      assert Out(f, MemberEnd(f, k))[|Out(f, k)|..|Out(f, k)| + n] == [];
    } else {
      var m, out := MemberEnd(f, k), ItemOut(f, k);
      assert k < m && f.items[k].Block?;
      OutStep(f, k);
      OutGrows(f, k + 1, m);
      var all, u := Out(f, m), |Out(f, k)|;
      Within(Out(f, k), out, all);
      if n <= |out| {
        assert all[u..u + n] == all[u..u + |out|][..n];
      } else {
        TracksReads(f, k + 1, hist + out, n - |out|);
        assert all[u..u + n] == all[u..u + |out|] + all[u + |out|..u + n];
      }
    }
  }

  lemma OutStep(f: GzFile, k: nat)
    requires k < |f.items|
    ensures Out(f, k + 1) == Out(f, k) + ItemOut(f, k)
  {
  }

  lemma Within(a: seq<byte>, b: seq<byte>, all: seq<byte>)
    requires a + b <= all
    ensures all[|a|..|a| + |b|] == b
  {
  }

  /** A self-contained stretch tracks the full decode from an empty history. */
  lemma {:induction false} ContainedTracks(f: GzFile, k: nat, hist: seq<byte>, pre: seq<byte>)
    requires WellFormed(f) && Decodes(f) && k < |f.items|
    requires SelfContained(f, k, hist) && MemberOut(f, k) == pre + hist
    ensures Tracks(f, k, hist)
    decreases |f.items| - k
  {
    hide Decode;
    if f.items[k].Block? {
      SuffixAgrees(pre, hist, f.items[k].toks);
      assert MayFollow(f.items[k], f.items[k + 1]);
      ContainedTracks(f, k + 1, hist + ItemOut(f, k), pre);
    }
  }

  /** So does a stretch that starts with the last window of the whole output. */
  lemma {:induction false} WindowTracks(f: GzFile, k: nat, hist: seq<byte>, pre: seq<byte>)
    requires WellFormed(f) && Decodes(f) && k < |f.items|
    requires WINDOW <= |hist| && Out(f, k) == pre + hist
    ensures Tracks(f, k, hist)
    decreases |f.items| - k
  {
    hide Decode;
    if f.items[k].Block? {
      var toks := f.items[k].toks;
      var before := MemberIsTail(f, k);
      SuffixAgrees(before, MemberOut(f, k), toks);
      WindowEnough(pre, hist, toks);
      assert MayFollow(f.items[k], f.items[k + 1]);
      assert Out(f, k + 1) == pre + (hist + ItemOut(f, k));
      WindowTracks(f, k + 1, hist + ItemOut(f, k), pre);
    }
  }

  /** Every picked boundary can be decoded from, to the end of its member. */
  lemma PickTracks(f: GzFile, minBlock: nat, k: nat, last: nat)
    requires WellFormed(f) && Decodes(f) && k < |f.items| && WINDOW <= minBlock
    requires Pick(f, minBlock, k, last).Some?
    ensures Tracks(f, k, Pick(f, minBlock, k, last).value.dict)
  {
    hide Tracks;
    if Judge(f, k) == Independent {
      hide Decode;
      var pre := MemberOut(f, k);
      assert pre == pre + [];
      Restarted(f, k);
    } else {
      var out := Out(f, k);
      assert out == out[..|out| - WINDOW] + LastWindow(out);
      WindowTracks(f, k, LastWindow(out), out[..|out| - WINDOW]);
    }
  }

  /** An independent boundary decodes to the end of its member from nothing. */
  lemma Restarted(f: GzFile, k: nat)
    requires WellFormed(f) && Decodes(f) && k < |f.items| && Judge(f, k) == Independent
    ensures Tracks(f, k, [])
  {
    hide Decode, Tracks, Survives, SelfContained;
    var pre := MemberOut(f, k);
    assert pre == pre + [];
    TrialDecides(f, k, [], pre);
    ContainedTracks(f, k, [], pre);
  }

  // ----- Where the next entry is -----

  function NextUoff(f: GzFile, es: seq<Entry>): nat {
    if es == [] then |Out(f, |f.items|)| else es[0].uoff
  }

  /** Between members nothing is put out before the next entry. */
  lemma {:induction false} QuietBetween(f: GzFile, minBlock: nat, k: nat, last: nat)
    requires WellFormed(f) && Decodes(f) && k <= |f.items|
    requires k == |f.items| || !f.items[k].Block? || MemberOut(f, k) == []
    ensures NextUoff(f, Entries(f, minBlock, k, last)) == |Out(f, k)|
    decreases |f.items| - k
  {
    hide Decode, Survives, SelfContained;
    if k < |f.items| && Pick(f, minBlock, k, last).None? {
      if f.items[k].Block? {
        AlwaysContained(f, k);
        TrialDecides(f, k, [], []);
        assert Judge(f, k) == Empty;
      }
      assert k + 1 < |f.items| ==> MayFollow(f.items[k], f.items[k + 1]);
      QuietBetween(f, minBlock, k + 1, last);
    }
  }

  /** The next entry comes no later than the end of the member. */
  lemma {:induction false} NextInMember(f: GzFile, minBlock: nat, k: nat, last: nat)
    requires WellFormed(f) && Decodes(f) && k <= |f.items|
    ensures |Out(f, k)| <= NextUoff(f, Entries(f, minBlock, k, last)) <= |Out(f, MemberEnd(f, k))|
    decreases |f.items| - k
  {
    hide Decode, Survives, Judge, ItemOut;
    OutGrows(f, k, MemberEnd(f, k));
    if k == |f.items| || !f.items[k].Block? {
      QuietBetween(f, minBlock, k, last);
    } else if Pick(f, minBlock, k, last).None? {
      NextInMember(f, minBlock, k + 1, last);
      OutGrows(f, k, k + 1);
    }
  }

  // ----- Soundness of the index -----

  /** Entry `i` decodes to exactly the bytes from its own position to the next entry's. */
  ghost predicate Reads(f: GzFile, es: seq<Entry>, i: nat)
    requires i < |es|
  {
    var next := NextUoff(f, es[i + 1..]);
    && es[i].at < |f.items| && es[i].uoff == |Out(f, es[i].at)|
    && es[i].uoff <= next <= |Out(f, |f.items|)|
    && ReadFrom(f, es[i].at, es[i].dict, next - es[i].uoff) == Some(Out(f, |f.items|)[es[i].uoff..next])
  }

  lemma {:induction false} EntriesSound(f: GzFile, minBlock: nat, k: nat, last: nat, i: nat)
    requires WellFormed(f) && Decodes(f) && k <= |f.items| && WINDOW <= minBlock
    requires i < |Entries(f, minBlock, k, last)|
    ensures Reads(f, Entries(f, minBlock, k, last), i)
    decreases |f.items| - k
  {
    hide Decode, Judge, ItemOut, Reads, Pick;
    match Pick(f, minBlock, k, last)
    case None =>
      EntriesSound(f, minBlock, k + 1, last, i);
    case Some(e) =>
      if i == 0 {
        FirstSound(f, minBlock, k, last);
      } else {
        EntriesSound(f, minBlock, k + 1, e.uoff, i - 1);
        LaterReads(f, e, Entries(f, minBlock, k + 1, e.uoff), i - 1);
      }
  }

  lemma LaterReads(f: GzFile, e: Entry, es: seq<Entry>, i: nat)
    requires i < |es| && Reads(f, es, i)
    ensures Reads(f, [e] + es, i + 1)
  {
    hide ReadFrom, Out;
    assert ([e] + es)[i + 2..] == es[i + 1..];
  }

  lemma FirstSound(f: GzFile, minBlock: nat, k: nat, last: nat)
    requires WellFormed(f) && Decodes(f) && k < |f.items| && WINDOW <= minBlock
    requires Pick(f, minBlock, k, last).Some?
    ensures var e := Pick(f, minBlock, k, last).value;
            Reads(f, [e] + Entries(f, minBlock, k + 1, e.uoff), 0)
  {
    hide Judge, Entries, ReadFrom, Out;
    var e := Pick(f, minBlock, k, last).value;
    FirstReads(f, minBlock, k, last);
    assert ([e] + Entries(f, minBlock, k + 1, e.uoff))[1..] == Entries(f, minBlock, k + 1, e.uoff);
  }

  lemma FirstReads(f: GzFile, minBlock: nat, k: nat, last: nat)
    requires WellFormed(f) && Decodes(f) && k < |f.items| && WINDOW <= minBlock
    requires Pick(f, minBlock, k, last).Some?
    ensures var e := Pick(f, minBlock, k, last).value;
            var next := NextUoff(f, Entries(f, minBlock, k + 1, e.uoff));
            && e.uoff <= next <= |Out(f, |f.items|)|
            && ReadFrom(f, k, e.dict, next - e.uoff) == Some(Out(f, |f.items|)[e.uoff..next])
  {
    hide Decode, Judge, ItemOut, ReadFrom, Tracks, Out, Entries;
    var e := Pick(f, minBlock, k, last).value;
    var m := MemberEnd(f, k);
    PickTracks(f, minBlock, k, last);
    var next := NextUoff(f, Entries(f, minBlock, k + 1, e.uoff));
    OutGrows(f, k, k + 1);
    if f.items[k].Block? {
      NextInMember(f, minBlock, k + 1, e.uoff);
    } else {
      SameOut(f, k);
      assert k + 1 < |f.items| ==> MayFollow(f.items[k], f.items[k + 1]);
      NoOut(f, k);
      QuietBetween(f, minBlock, k + 1, e.uoff);
    }
    TracksReads(f, k, e.dict, next - e.uoff);
    OutGrows(f, m, |f.items|);
    SameSlice(Out(f, m), Out(f, |f.items|), e.uoff, next);
  }

  lemma SameSlice(a: seq<byte>, b: seq<byte>, i: nat, j: nat)
    requires i <= j <= |a| && a <= b
    ensures a[i..j] == b[i..j]
  {
  }

  lemma SameOut(f: GzFile, k: nat)
    requires k < |f.items| && !f.items[k].Block?
    ensures Out(f, k + 1) == Out(f, k)
  {
  }

  lemma NoOut(f: GzFile, k: nat)
    requires k < |f.items| && !f.items[k].Block?
    ensures MemberOut(f, k + 1) == []
  {
  }

  // ----- Shape of the index -----

  /** Entries come in order, each at its own boundary, and no two share a
      compressed offset: the cache may use that offset as its key. */
  lemma {:induction false} OffsetsDistinct(f: GzFile, minBlock: nat, k: nat, last: nat, i: nat, j: nat)
    requires WellFormed(f) && k <= |f.items| && i < j < |Entries(f, minBlock, k, last)|
    ensures var es := Entries(f, minBlock, k, last);
            k <= es[i].at < es[j].at < |f.items| && es[i].coff < es[j].coff && es[i].uoff <= es[j].uoff
    decreases |f.items| - k
  {
    hide Judge, Out;
    match Pick(f, minBlock, k, last)
    case None =>
      OffsetsDistinct(f, minBlock, k + 1, last, i, j);
    case Some(e) =>
      if i != 0 {
        OffsetsDistinct(f, minBlock, k + 1, e.uoff, i - 1, j - 1);
      } else {
        EntryIsLater(f, minBlock, k + 1, e.uoff, j - 1);
        var es := Entries(f, minBlock, k, last);
        BytesIncrease(f, k, es[j].at);
        OutGrows(f, k, es[j].at);
      }
  }

  lemma {:induction false} EntryIsLater(f: GzFile, minBlock: nat, k: nat, last: nat, i: nat)
    requires k <= |f.items| < |f.ends| && i < |Entries(f, minBlock, k, last)|
    ensures var e := Entries(f, minBlock, k, last)[i];
            k <= e.at < |f.items| && e == EntryAt(f, e.at, e.dict)
    decreases |f.items| - k
  {
    hide Judge, Out;
    match Pick(f, minBlock, k, last)
    case None =>
      EntryIsLater(f, minBlock, k + 1, last, i);
    case Some(e) =>
      if 0 < i {
        EntryIsLater(f, minBlock, k + 1, e.uoff, i - 1);
      }
  }

  /** An entry covers no bytes exactly when it was made at a member's trailer. */
  lemma {:induction false} EmptyAtTrailer(f: GzFile, minBlock: nat, k: nat, last: nat, i: nat)
    requires WellFormed(f) && Decodes(f) && k <= |f.items| && i < |Entries(f, minBlock, k, last)|
    requires k < |f.items| && f.items[k].Header? ==> |Out(f, k)| <= last + minBlock
    ensures var es := Entries(f, minBlock, k, last);
            es[i].at < |f.items| && (NextUoff(f, es[i + 1..]) == es[i].uoff <==> f.items[es[i].at].Trailer?)
    decreases |f.items| - k
  {
    hide Decode, Judge, Out, ItemOut;
    var es := Entries(f, minBlock, k, last);
    SameOutAfter(f, k);
    match Pick(f, minBlock, k, last)
    case None =>
      NotPicked(f, minBlock, k, last);
      EmptyAtTrailer(f, minBlock, k + 1, last, i);
    case Some(e) =>
      var rest := Entries(f, minBlock, k + 1, e.uoff);
      if i != 0 {
        assert es[i + 1..] == rest[i..];
        EmptyAtTrailer(f, minBlock, k + 1, e.uoff, i - 1);
      } else {
        assert es[1..] == rest;
        if f.items[k].Block? {
          PickedPutsOut(f, minBlock, k, last);
          NextInMember(f, minBlock, k + 1, e.uoff);
          OutStep(f, k);
        } else {
          HeaderNotPicked(f, minBlock, k, last);
          NoOut(f, k);
          QuietBetween(f, minBlock, k + 1, e.uoff);
        }
      }
  }

  lemma SameOutAfter(f: GzFile, k: nat)
    requires WellFormed(f) && k < |f.items|
    ensures !f.items[k].Block? ==> Out(f, k + 1) == Out(f, k)
    ensures k + 1 < |f.items| && f.items[k + 1].Header? ==> f.items[k].Trailer?
    ensures k + 1 < |f.items| && !f.items[k].Block? ==> MayFollow(f.items[k], f.items[k + 1])
  {
    assert k + 1 < |f.items| ==> MayFollow(f.items[k], f.items[k + 1]);
  }

  lemma NotPicked(f: GzFile, minBlock: nat, k: nat, last: nat)
    requires k < |f.items| < |f.ends| && Pick(f, minBlock, k, last).None?
    ensures f.items[k].Block? || |Out(f, k)| <= last + minBlock
  {
  }

  lemma HeaderNotPicked(f: GzFile, minBlock: nat, k: nat, last: nat)
    requires k < |f.items| < |f.ends| && Pick(f, minBlock, k, last).Some?
    requires f.items[k].Header? ==> |Out(f, k)| <= last + minBlock
    ensures !f.items[k].Header?
  {
  }

  /** A block that is picked puts something out. */
  lemma PickedPutsOut(f: GzFile, minBlock: nat, k: nat, last: nat)
    requires WellFormed(f) && Decodes(f) && k < |f.items| && f.items[k].Block?
    requires Pick(f, minBlock, k, last).Some?
    ensures ItemOut(f, k) != []
  {
    var toks := f.items[k].toks;
    var pre := MemberOut(f, k);
    if ItemOut(f, k) == [] {
      SilentDecode(pre, toks);
    }
  }

  /** Only no tokens decode to nothing. */
  lemma SilentDecode(hist: seq<byte>, toks: seq<Token>)
    requires Decode(hist, toks) == Decoded([], true)
    ensures toks == []
  {
  }

  /** No entry is further from the one before it than the minimum block size
      and one DEFLATE block. */
  lemma {:induction false} Granularity(f: GzFile, minBlock: nat, k: nat, last: nat, most: nat)
    requires k <= |f.items| < |f.ends| && last <= |Out(f, k)| <= last + minBlock + most
    requires forall j: nat | j < |f.items| :: |ItemOut(f, j)| <= most
    ensures NextUoff(f, Entries(f, minBlock, k, last)) <= last + minBlock + most
    decreases |f.items| - k
  {
    hide ItemOut, Out, Survives;
    if k < |f.items| && Pick(f, minBlock, k, last).None? {
      OutStep(f, k);
      if Judge(f, k) == Empty {
        EmptyAddsNothing(f, k);
      }
      Granularity(f, minBlock, k + 1, last, most);
    }
  }

  lemma EmptyAddsNothing(f: GzFile, k: nat)
    requires k < |f.items| && Judge(f, k) == Empty
    ensures ItemOut(f, k) == []
  {
    SilentDecode([], f.items[k].toks);
  }

  /** So when that sum fits 32 bits, so does the size of every entry. */
  lemma {:induction false} SizesBounded(f: GzFile, minBlock: nat, k: nat, last: nat, most: nat, i: nat)
    requires WellFormed(f) && k <= |f.items| && i < |Entries(f, minBlock, k, last)|
    requires forall j: nat | j < |f.items| :: |ItemOut(f, j)| <= most
    ensures var es := Entries(f, minBlock, k, last);
            NextUoff(f, es[i + 1..]) <= es[i].uoff + minBlock + most
    decreases |f.items| - k
  {
    hide ItemOut, Out, Judge;
    var es := Entries(f, minBlock, k, last);
    match Pick(f, minBlock, k, last)
    case None =>
      SizesBounded(f, minBlock, k + 1, last, most, i);
    case Some(e) =>
      var rest := Entries(f, minBlock, k + 1, e.uoff);
      if i != 0 {
        assert es[i + 1..] == rest[i..];
        SizesBounded(f, minBlock, k + 1, e.uoff, most, i - 1);
      } else {
        assert es[1..] == rest;
        OutStep(f, k);
        Granularity(f, minBlock, k + 1, e.uoff, most);
      }
  }
}
