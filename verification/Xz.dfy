/** Finding the streams of an .xz file from its end (`PixzFile::readIndex`). */
module Xz {
  import opened Bits
  import opened Wrappers

  const CHUNK_SIZE: nat := 4096

  /** Headers and footers are twelve bytes (section 2.1 of the .xz file format). */
  const HEADER_SIZE: nat := 12

  /** A stream has at least a header, an index of eight bytes and a footer. */
  type StreamSize = n: nat | 32 <= n witness 32

  /** A file, and what the library makes of it: the backward size in a footer,
      and the size of the stream whose index starts at a position. */
  datatype XzFile = XzFile(bytes: seq<byte>, footer: seq<byte> -> Option<nat>, index: nat -> Option<StreamSize>)

  /** A stream found at `at`, and the padding after it. */
  datatype Stream = Stream(at: nat, size: StreamSize, pad: nat)

  // ----- The layout of a file -----

  /** The four bytes before `end` are zero. */
  predicate ZeroWord(bytes: seq<byte>, end: nat)
    requires 4 <= end <= |bytes|
  {
    bytes[end - 4] == 0 && bytes[end - 3] == 0 && bytes[end - 2] == 0 && bytes[end - 1] == 0
  }

  /** The size of the stream that ends at `end`, by its footer and its index. */
  function StreamBefore(x: XzFile, end: nat): Option<StreamSize>
    requires HEADER_SIZE <= end <= |x.bytes|
  {
    match x.footer(x.bytes[end - HEADER_SIZE..end])
    case None => None
    case Some(back) => if end < HEADER_SIZE + back then None else x.index(end - HEADER_SIZE - back)
  }

  /** `streams` are, in file order, the streams of the first `end` bytes: each
      is followed by a multiple of four zero bytes, and does not itself end in
      four zero bytes (sections 2.1.2 and 2.2 of the .xz file format). */
  ghost predicate Layout(x: XzFile, streams: seq<Stream>, end: nat)
    requires end <= |x.bytes|
    decreases |streams|
  {
    streams != [] &&
    var n := |streams| - 1;
    var s := streams[n];
    var stop := s.at + s.size;
    && stop + s.pad == end && s.pad % 4 == 0 && (forall i | stop <= i < end :: x.bytes[i] == 0)
    && !ZeroWord(x.bytes, stop) && StreamBefore(x, stop) == Some(s.size)
    && if n == 0 then s.at == 0 else Layout(x, streams[..n], s.at)
  }

  /** A stream of `size` bytes ends at `stop`: the footer is its last twelve
      bytes, and gives the size of the index, which stands right before it and
      gives the size of the stream (section 2.1.2 of the .xz file format). */
  ghost predicate EndsStream(x: XzFile, stop: nat, size: StreamSize)
    requires stop <= |x.bytes|
  {
    && 12 <= stop
    && x.footer(x.bytes[stop - 12..stop]).Some?
    && var back := x.footer(x.bytes[stop - 12..stop]).value;
       back + 12 <= stop && x.index(stop - 12 - back) == Some(size)
  }

  /** Where the stream after `streams[i]` begins, or the file ends. */
  function NextAt(x: XzFile, streams: seq<Stream>, i: nat): nat
    requires i < |streams|
  {
    if i + 1 < |streams| then streams[i + 1].at else |x.bytes|
  }

  /** Stream `i` ends as a stream, and zero words, all there are, fill the
      space up to the next. */
  ghost predicate InPlace(x: XzFile, streams: seq<Stream>, i: nat)
    requires i < |streams|
  {
    var s := streams[i];
    var stop, next := s.at + s.size, NextAt(x, streams, i);
    && stop + s.pad == next <= |x.bytes| && s.pad % 4 == 0
    && (forall k | stop <= k < next :: x.bytes[k] == 0) && !(forall k | stop - 4 <= k < stop :: x.bytes[k] == 0)
    && EndsStream(x, stop, s.size)
  }

  /** The streams tile the file, with their padding. */
  ghost predicate Tiles(x: XzFile, streams: seq<Stream>) {
    streams != [] && streams[0].at == 0 && forall i: nat | i < |streams| :: InPlace(x, streams, i)
  }

  lemma StreamBeforeIs(x: XzFile, stop: nat, size: StreamSize)
    requires HEADER_SIZE <= stop <= |x.bytes|
    ensures StreamBefore(x, stop) == Some(size) <==> EndsStream(x, stop, size)
  {
  }

  lemma ZeroWordIs(bytes: seq<byte>, end: nat)
    requires 4 <= end <= |bytes|
    ensures ZeroWord(bytes, end) <==> forall k | end - 4 <= k < end :: bytes[k] == 0
  {
    if ZeroWord(bytes, end) {
      forall k | end - 4 <= k < end
        ensures bytes[k] == 0
      {
        assert k == end - 4 || k == end - 3 || k == end - 2 || k == end - 1;
      }
    }
  }

  /** A layout of the first `end` bytes, one stream at a time. */
  lemma {:induction false} LayoutInPlace(x: XzFile, streams: seq<Stream>, n: nat)
    requires 0 < n <= |streams| && NextAt(x, streams, n - 1) <= |x.bytes|
    ensures Layout(x, streams[..n], NextAt(x, streams, n - 1)) <==>
            streams[0].at == 0 && forall i: nat | i < n :: InPlace(x, streams, i)
    decreases n
  {
    hide StreamBefore, EndsStream, ZeroWord;
    var m := n - 1;
    var s, end := streams[m], NextAt(x, streams, m);
    var stop := s.at + s.size;
    assert streams[..n][..m] == streams[..m] && streams[..n][m] == s;
    if stop <= |x.bytes| {
      ZeroWordIs(x.bytes, stop);
      StreamBeforeIs(x, stop, s.size);
    }
    if 0 < m && s.at <= |x.bytes| {
      LayoutInPlace(x, streams, m);
    }
    if Layout(x, streams[..n], end) {
      assert InPlace(x, streams, m);
    }
    if forall i: nat | i < n :: InPlace(x, streams, i) {
      assert InPlace(x, streams, m);
    }
  }

  /** So a layout of the file is a tiling of it. */
  lemma LayoutTiles(x: XzFile, streams: seq<Stream>)
    ensures Layout(x, streams, |x.bytes|) <==> Tiles(x, streams)
  {
    hide Layout, InPlace;
    if streams != [] {
      LayoutInPlace(x, streams, |streams|);
      assert streams[..|streams|] == streams;
    } else {
      NoLayout(x);
    }
  }

  lemma NoLayout(x: XzFile)
    ensures !Layout(x, [], |x.bytes|)
  {
  }

  // ----- Going backwards, a word at a time -----

  function Padding(bytes: seq<byte>, end: nat): (pad: nat)
    requires end <= |bytes|
    ensures pad <= end && pad % 4 == 0
    decreases end
  {
    if end < 4 || !ZeroWord(bytes, end) then 0 else 4 + Padding(bytes, end - 4)
  }

  /** The last stream of the first `end` bytes. */
  function LastStream(x: XzFile, end: nat): (s: Option<Stream>)
    requires end <= |x.bytes|
    ensures s.Some? ==> s.value.at < end
  {
    var pad := Padding(x.bytes, end);
    var stop := end - pad;
    if stop < HEADER_SIZE then None
    else match StreamBefore(x, stop)
      case None => None
      case Some(size) => if stop < size then None else Some(Stream(stop - size, size, pad))
  }

  function Streams(x: XzFile, end: nat): Option<seq<Stream>>
    requires end <= |x.bytes|
    decreases end
  {
    match LastStream(x, end)
    case None => None
    case Some(s) =>
      if s.at == 0 then Some([s])
      else match Streams(x, s.at)
        case None => None
        case Some(before) => Some(before + [s])
  }

  /** The padding is all the zero words there are, and nothing more. */
  lemma {:induction false} PaddingExact(bytes: seq<byte>, end: nat, pad: nat)
    requires end <= |bytes| && pad <= end - 4 && pad % 4 == 0
    ensures pad == Padding(bytes, end) <==> !ZeroWord(bytes, end - pad) && forall i | end - pad <= i < end :: bytes[i] == 0
    decreases end
  {
    if pad != 0 {
      assert ZeroWord(bytes, end) <==> forall i | end - 4 <= i < end :: bytes[i] == 0;
      PaddingExact(bytes, end - 4, pad - 4);
    } else if ZeroWord(bytes, end) {
      assert Padding(bytes, end) != 0;
    }
  }

  /** Going backwards finds exactly the layout: every layout is found, nothing
      else is, and so a file has at most one. */
  lemma StreamsAreLayout(x: XzFile, streams: seq<Stream>, end: nat)
    requires end <= |x.bytes|
    ensures Streams(x, end) == Some(streams) <==> Layout(x, streams, end)
    decreases end
  {
    if Streams(x, end) == Some(streams) {
      FoundIsLayout(x, streams, end);
    }
    if Layout(x, streams, end) {
      LayoutIsFound(x, streams, end);
    }
  }

  lemma {:induction false} FoundIsLayout(x: XzFile, streams: seq<Stream>, end: nat)
    requires end <= |x.bytes| && Streams(x, end) == Some(streams)
    ensures Layout(x, streams, end)
    decreases end
  {
    hide StreamBefore, Padding, ZeroWord;
    var pad := Padding(x.bytes, end);
    PaddingExact(x.bytes, end, pad);
    var s := LastStream(x, end).value;
    if s.at != 0 {
      FoundIsLayout(x, Streams(x, s.at).value, s.at);
      assert streams[..|streams| - 1] == Streams(x, s.at).value;
    }
  }

  lemma {:induction false} LayoutIsFound(x: XzFile, streams: seq<Stream>, end: nat)
    requires end <= |x.bytes| && Layout(x, streams, end)
    ensures Streams(x, end) == Some(streams)
    decreases |streams|
  {
    hide StreamBefore, Padding, ZeroWord;
    var n := |streams| - 1;
    PaddingExact(x.bytes, end, streams[n].pad);
    if n != 0 {
      LayoutIsFound(x, streams[..n], streams[n].at);
      assert streams == streams[..n] + [streams[n]];
    } else {
      assert streams == [streams[0]];
    }
  }

  // ----- Going backwards, a chunk at a time -----

  lemma PaddingStep(bytes: seq<byte>, end: nat)
    requires end <= |bytes|
    ensures Padding(bytes, end) == if end < 4 || !ZeroWord(bytes, end) then 0 else 4 + Padding(bytes, end - 4)
  {
  }

  lemma SameWord(bytes: seq<byte>, from: nat, to: nat, end: nat)
    requires from <= to <= |bytes| && 4 <= end <= to - from
    ensures ZeroWord(bytes[from..to], end) == ZeroWord(bytes, from + end)
  {
  }

  /** Looks backwards through a chunk for a word that is not zero: the end of
      that word, or of what is left of the chunk, and how much was zero. */
  method LastWord(bytes: seq<byte>, from: nat, to: nat) returns (found: bool, end: nat, zeros: nat)
    requires from <= to <= |bytes| && 4 <= to - from
    ensures from <= end && end + zeros == to && Padding(bytes, to) == zeros + Padding(bytes, end)
    ensures if found then from + 4 <= end && !ZeroWord(bytes, end) else end == from + (to - from) % 4
  {
    hide Padding, ZeroWord;
    var buf := bytes[from..to];
    var f := |buf| - 4;
    zeros := 0;
    while 0 <= f
      invariant -4 <= f <= |buf| - 4 && (f + 4) % 4 == |buf| % 4
      invariant f + 4 + zeros == |buf| && Padding(bytes, to) == zeros + Padding(bytes, from + f + 4)
      decreases f
    {
      PaddingStep(bytes, from + f + 4);
      SameWord(bytes, from, to, f + 4);
      if !ZeroWord(buf, f + 4) {
        return true, from + f + 4, zeros;
      }
      zeros := zeros + 4;
      f := f - 4;
    }
    return false, from + f + 4, zeros;
  }

  /** Reads chunks backwards from `end` until one holds a word that is not zero.
      Fails once too little of the file is left. */
  method SkipPadding(bytes: seq<byte>, end: nat) returns (ok: bool, pos: nat, pad: nat)
    requires end <= |bytes|
    ensures ok ==> pad == Padding(bytes, end) && pos == end - pad
    ensures !ok ==> end - Padding(bytes, end) < HEADER_SIZE
  {
    hide Padding, ZeroWord;
    pos, pad := end, 0;
    while true
      invariant pos + pad <= end
      invariant if pos + pad == end then Padding(bytes, end) == pad + Padding(bytes, pos)
                else pos == 0 && end - Padding(bytes, end) < HEADER_SIZE
      decreases pos
    {
      if pos < HEADER_SIZE {
        return false, pos, pad;
      }
      var s := if pos < CHUNK_SIZE then pos else CHUNK_SIZE;
      var found, word, zeros := LastWord(bytes, pos - s, pos);
      pad := pad + zeros;
      PaddingStep(bytes, word);
      if found {
        return true, word, pad;
      }
      pos := pos - s;
    }
  }

  lemma Found(x: XzFile, npos: nat, s: Stream, idx: seq<Stream>)
    requires npos <= |x.bytes| && LastStream(x, npos) == Some(s)
    requires Streams(x, |x.bytes|) == After(Streams(x, npos), idx)
    ensures Streams(x, |x.bytes|) == if s.at == 0 then Some([s] + idx) else After(Streams(x, s.at), [s] + idx)
  {
    hide LastStream;
    if s.at != 0 && Streams(x, s.at).Some? {
      assert Streams(x, s.at).value + [s] + idx == Streams(x, s.at).value + ([s] + idx);
    }
  }

  function After(before: Option<seq<Stream>>, idx: seq<Stream>): Option<seq<Stream>> {
    match before
    case None => None
    case Some(streams) => Some(streams + idx)
  }

  /** What the backward scan returns, or that it throws. `npos` is where the
      part of the file still to be looked at ends. */
  method ReadIndex(x: XzFile) returns (r: Option<seq<Stream>>)
    ensures forall streams :: r == Some(streams) <==> Tiles(x, streams)
  {
    hide Layout, Padding, Streams, Tiles;
    var idx: seq<Stream> := [];
    var npos := |x.bytes|;
    AtStart(x);
    while true
      invariant 0 <= npos <= |x.bytes| && Streams(x, |x.bytes|) == After(Streams(x, npos), idx)
      decreases npos
    {
      var ok, pos, pad := SkipPadding(x.bytes, npos);
      if !ok || pos < HEADER_SIZE {
        NoLast(x, npos, idx);
        return None;
      }
      var back := x.footer(x.bytes[pos - HEADER_SIZE..pos]);
      if back.None? || pos < HEADER_SIZE + back.value {
        NoLast(x, npos, idx);
        return None;
      }
      var size := x.index(pos - HEADER_SIZE - back.value);
      if size.None? || pos < size.value {
        NoLast(x, npos, idx);
        return None;
      }
      var s := Stream(pos - size.value, size.value, pad);
      Found(x, npos, s, idx);
      npos, idx := s.at, [s] + idx;
      if npos == 0 {
        AllLayouts(x);
        return Some(idx);
      }
    }
  }

  lemma AtStart(x: XzFile)
    ensures Streams(x, |x.bytes|) == After(Streams(x, |x.bytes|), [])
  {
    hide Streams;
    match Streams(x, |x.bytes|)
    case None =>
    case Some(streams) => assert streams + [] == streams;
  }

  lemma NoLast(x: XzFile, npos: nat, idx: seq<Stream>)
    requires npos <= |x.bytes| && LastStream(x, npos).None?
    requires Streams(x, |x.bytes|) == After(Streams(x, npos), idx)
    ensures forall streams :: !Tiles(x, streams)
  {
    hide LastStream, Tiles;
    assert Streams(x, npos) == None;
    AllLayouts(x);
  }

  lemma AllLayouts(x: XzFile)
    ensures forall streams :: Streams(x, |x.bytes|) == Some(streams) <==> Tiles(x, streams)
  {
    hide Streams, Layout, Tiles;
    forall streams: seq<Stream>
      ensures Streams(x, |x.bytes|) == Some(streams) <==> Tiles(x, streams)
    {
      StreamsAreLayout(x, streams, |x.bytes|);
      LayoutTiles(x, streams);
    }
  }
}
