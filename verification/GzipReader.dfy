/** The inflating reader with a save point (`GzipReader.h`, `GzipReader.cc`). */
module GzipReader {
  import opened Bits
  import opened Deflate
  import opened GzipLayout
  import opened Wrappers

  const CHUNK_SIZE: nat := 4096
  const FOOTER_SIZE: nat := 8

  datatype Wrapper = Gzip | Raw

  /** `RunsOut` is the `EOFException` of a read at the end of the file. */
  datatype Status = OK | StreamEnd | DataError | RunsOut

  /** A zlib stream. `place` is the bit position where the item being decoded
      starts, once that is known; `got` counts the bytes of it already out, and
      `hist` is what copies could reach when it started. Of `value`, the lowest
      `primed` bits are to be decoded before the input. `bits` and `stop` are
      the two parts of `data_type`: unused bits of the last byte taken, and
      whether the stream stands at a block boundary. */
  datatype ZStream = ZStream(place: Option<nat>, got: nat, hist: seq<byte>, mode: Wrapper, clean: bool, ended: bool,
                             primed: nat, value: byte, availIn: nat, availOut: nat, bits: nat, stop: bool)

  /** The fields a `swap` exchanges. */
  datatype State = State(z: ZStream, input: seq<byte>, outBytes: nat, outBuf: seq<byte>, initOutPos: nat, wrap: Wrapper)
  {
    function Opos(): nat {
      initOutPos + outBytes
    }

    function Ibits(): nat {
      z.bits
    }
  }

  /** `inflateReset2`: forget everything but the buffers. */
  function ResetStream(z: ZStream, w: Wrapper): ZStream {
    z.(place := None, got := 0, hist := [], mode := w, clean := true, ended := false, primed := 0)
  }

  // ----- The circular output buffer -----

  /** The last window of `emitted` is in the buffer, and the next byte goes
      right after it, wrapping around. */
  ghost predicate Holds(outBuf: seq<byte>, availOut: nat, emitted: seq<byte>) {
    && |outBuf| == WINDOW && availOut <= WINDOW
    && (WINDOW - availOut) % WINDOW == |emitted| % WINDOW
    && forall j: nat | |emitted| <= j + WINDOW && j < |emitted| :: outBuf[j % WINDOW] == emitted[j]
  }

  function Write(outBuf: seq<byte>, availOut: nat, out: seq<byte>): seq<byte>
    requires |out| <= availOut <= |outBuf|
  {
    var w := |outBuf| - availOut;
    outBuf[..w] + out + outBuf[w + |out|..]
  }

  lemma HoldsWrite(outBuf: seq<byte>, availOut: nat, emitted: seq<byte>, out: seq<byte>)
    requires Holds(outBuf, availOut, emitted) && |out| <= availOut && 0 < availOut
    ensures Holds(Write(outBuf, availOut, out), availOut - |out|, emitted + out)
  {
    var w, n, all := WINDOW - availOut, |out|, emitted + out;
    var q := |emitted| / WINDOW;
    assert |emitted| == q * WINDOW + w;
    var outBuf' := Write(outBuf, availOut, out);
    forall j: nat | |all| <= j + WINDOW && j < |all|
      ensures outBuf'[j % WINDOW] == all[j]
    {
      if |emitted| <= j {
        Wrapped(q, w + (j - |emitted|), j);
      } else if q * WINDOW <= j {
        Wrapped(q, j - q * WINDOW, j);
      } else {
        Wrapped(q - 1, j - (q - 1) * WINDOW, j);
      }
    }
    if w + n == WINDOW {
      Wrapped(q + 1, 0, |all|);
    } else {
      Wrapped(q, w + n, |all|);
    }
  }

  lemma Wrapped(q: int, r: nat, j: nat)
    requires j == q * WINDOW + r && r < WINDOW
    ensures j % WINDOW == r
  {
  }

  /** Rotating the buffer gives the window, oldest byte first. */
  lemma HoldsWindow(outBuf: seq<byte>, availOut: nat, emitted: seq<byte>)
    requires Holds(outBuf, availOut, emitted) && WINDOW <= |emitted|
    ensures outBuf[WINDOW - availOut..] + outBuf[..WINDOW - availOut] == emitted[|emitted| - WINDOW..]
  {
    var w, from := WINDOW - availOut, |emitted| - WINDOW;
    var q := |emitted| / WINDOW;
    var r := |emitted| % WINDOW;
    var rotated, window := outBuf[w..] + outBuf[..w], emitted[from..];
    forall i: nat | i < WINDOW
      ensures rotated[i] == window[i]
    {
      if r + i < WINDOW {
        Wrapped(q - 1, r + i, from + i);
      } else {
        Wrapped(q, r + i - WINDOW, from + i);
      }
      assert outBuf[(from + i) % WINDOW] == emitted[from + i];
    }
  }

  // ----- One call of inflate -----

  function Ipos(s: State, fpos: nat): int {
    fpos - s.z.availIn
  }

  /** Bit `i` of a byte in the order in which DEFLATE packs its stream. */
  predicate LowBit(b: byte, i: nat)
    requires i < 8
  {
    Bit(b, 7 - i)
  }

  /** The bits primed are the last ones of the file before the input. */
  predicate PrimedRight(bytes: seq<byte>, primed: nat, value: byte, ipos: int) {
    0 < primed ==>
      && primed <= 8 && 0 < ipos <= |bytes|
      && forall i: nat | i < primed :: LowBit(value, i) == LowBit(bytes[ipos - 1], 8 - primed + i)
  }

  /** Shifting a byte down leaves its last bits. */
  lemma ShiftedDown(b: byte, n: nat, i: nat)
    requires i < n <= 8
    ensures LowBit(b >> (8 - n), i) == LowBit(b, 8 - n + i)
  {
    match n
    case 1 =>
    case 2 =>
    case 3 =>
    case 4 =>
    case 5 =>
    case 6 =>
    case 7 =>
    case 8 =>
  }

  lemma PrimedUnused(bytes: seq<byte>, primed: nat, value: byte, ipos: int)
    requires 0 < primed ==> primed <= 8 && 0 < ipos <= |bytes| && value == bytes[ipos - 1] >> (8 - primed)
    ensures PrimedRight(bytes, primed, value, ipos)
  {
    hide LowBit;
    forall i: nat | i < primed
      ensures LowBit(value, i) == LowBit(bytes[ipos - 1], 8 - primed + i)
    {
      ShiftedDown(bytes[ipos - 1], primed, i);
    }
  }

  /** The bit position where the current item starts: where the input points,
      less the bits primed, unless it is already known. A stream primed with
      other bits than those of the file is nowhere in it. */
  function Place(bytes: seq<byte>, z: ZStream, ipos: int): int {
    match z.place
    case Some(p) => p
    case None => if PrimedRight(bytes, z.primed, z.value, ipos) then 8 * ipos - z.primed else -1
  }

  function FindBoundary(f: GzFile, p: int, k: nat := 0): (b: nat)
    ensures b < |f.ends| ==> k <= b && f.ends[b] == p
    decreases |f.ends| - k
  {
    if |f.ends| <= k || f.ends[k] == p then k else FindBoundary(f, p, k + 1)
  }

  lemma {:induction false} BoundaryFound(f: GzFile, k: nat, from: nat)
    requires WellFormed(f) && from <= k <= |f.items|
    ensures FindBoundary(f, f.ends[k], from) == k
    decreases k - from
  {
    if from < k {
      EndsIncrease(f, from, k);
      BoundaryFound(f, k, from + 1);
    }
  }

  /** What a stream may decode where it stands. A raw stream that has decoded
      nothing yet knows no trailer, and one in gzip mode starts with a header. */
  predicate Takes(z: ZStream, item: Item) {
    match item
    case Header => z.mode.Gzip? && z.clean
    case Block(_) => z.mode.Raw? || !z.clean
    case Trailer => !z.clean
  }

  datatype Call = Call(z: ZStream, status: Status, out: seq<byte>)

  /** A call that takes `c` bytes of input and puts out `n` bytes. */
  function Inflate(f: GzFile, z: ZStream, k: nat, ipos: int, c: nat, n: nat): (r: Call)
    requires k < |f.items| < |f.ends| && c <= z.availIn && n <= z.availOut
    ensures |r.out| <= n && r.z.availIn == z.availIn - c && r.z.availOut == z.availOut - n
  {
    var z' := z.(place := Some(f.ends[k]), availIn := z.availIn - c, availOut := z.availOut - n, stop := false);
    var end := Bytes(f.ends[k + 1]);
    if !Takes(z, f.items[k]) then Call(z', if Hungry(f, k) then RunsOut else DataError, [])
    else match f.items[k]
      case Header =>
        if ipos + c < end then Call(z', OK, [])
        else Call(z'.(place := Some(f.ends[k + 1]), clean := false, bits := 0, stop := true), OK, [])
      case Trailer =>
        if z.mode.Raw? || ipos + c == end then Call(z'.(ended := true, bits := 0), StreamEnd, [])
        else Call(z', OK, [])
      case Block(toks) =>
        var d := Decode(z.hist, toks);
        var out := if z.got + n <= |d.out| then d.out[z.got..z.got + n] else [];
        if z.got + n < |d.out| || (d.ok && ipos + c < end) then Call(z'.(got := z.got + n), OK, out)
        else if !d.ok then Call(z', DataError, out)
        else Call(z'.(place := Some(f.ends[k + 1]), got := 0, hist := z.hist + d.out, clean := false,
                      bits := 8 * end - f.ends[k + 1], stop := true), OK, out)
  }

  /** What a call may take and put out: no more than the item has, and
      something unless nothing is left. It may take the last byte of a block and
      keep output back for want of room. */
  predicate Allowed(f: GzFile, z: ZStream, k: nat, ipos: int, c: nat, n: nat)
    requires k < |f.items| < |f.ends|
  {
    var end := Bytes(f.ends[k + 1]);
    && c <= z.availIn && n <= z.availOut
    && if !Takes(z, f.items[k]) then n == 0
       else match f.items[k]
         case Header => n == 0 && 0 < c && ipos + c <= end
         case Trailer => n == 0 && if z.mode.Raw? then c == 0 else 0 < c && ipos + c <= end
         case Block(toks) =>
           var d := Decode(z.hist, toks);
           && ipos + c <= end && z.got + n <= |d.out|
           && (0 < c + n || (!d.ok && z.got == |d.out|))
  }

  /** There is output of a block that is not out yet. */
  predicate KeepsBack(z: ZStream, item: Item) {
    item.Block? && z.got < |Decode(z.hist, item.toks).out|
  }

  /** A stream inside item `k` can always go on. */
  lemma CanGoOn(f: GzFile, z: ZStream, k: nat, ipos: int)
    requires k < |f.items| < |f.ends| && 0 < z.availIn && 0 < z.availOut
    requires ipos < Bytes(f.ends[k + 1]) || (ipos == Bytes(f.ends[k + 1]) && KeepsBack(z, f.items[k]))
    requires f.items[k].Block? ==> z.got <= |Decode(z.hist, f.items[k].toks).out|
    ensures Allowed(f, z, k, ipos, 0, 0) || Allowed(f, z, k, ipos, 1, 0) || Allowed(f, z, k, ipos, 0, 1)
  {
    hide Decode;
  }

  // ----- Where a reader stands -----

  /** The input buffer holds the bytes before the file position. */
  ghost predicate Buffered(bytes: seq<byte>, s: State, fpos: nat) {
    && |s.outBuf| == WINDOW && s.z.availOut <= WINDOW
    && s.z.availIn <= |s.input| && s.z.availIn <= fpos <= |bytes|
    && s.input[|s.input| - s.z.availIn..] == bytes[fpos - s.z.availIn..fpos]
  }

  /** The byte before the next one, if there is one in the input buffer, is that in the file. */
  ghost predicate Behind(bytes: seq<byte>, s: State, fpos: nat)
    requires Buffered(bytes, s, fpos)
  {
    s.z.availIn < |s.input| ==> 0 < Ipos(s, fpos) && s.input[|s.input| - s.z.availIn - 1] == bytes[Ipos(s, fpos) - 1]
  }

  /** The byte some bits of which are still unused is in the input buffer: no
      more input has been read since it was taken. */
  predicate CanPrime(s: State) {
    0 < s.z.bits ==> s.z.availIn < |s.input|
  }

  /** The file the layout describes. */
  ghost predicate IsFile(f: GzFile, bytes: seq<byte>) {
    WellFormed(f) && 8 * |bytes| == f.ends[|f.items|]
  }

  /** Inside item `k`, with `got` bytes of its output out. */
  ghost predicate Inside(f: GzFile, bytes: seq<byte>, s: State, fpos: nat, k: nat) {
    && IsFile(f, bytes) && Buffered(bytes, s, fpos) && k < |f.items| && !s.z.ended
    && Place(bytes, s.z, Ipos(s, fpos)) == f.ends[k]
    && Bytes(f.ends[k]) <= Ipos(s, fpos)
    && (Ipos(s, fpos) < Bytes(f.ends[k + 1]) || (Ipos(s, fpos) == Bytes(f.ends[k + 1]) && KeepsBack(s.z, f.items[k])))
    && (Bytes(f.ends[k]) < Ipos(s, fpos) ==> Behind(bytes, s, fpos))
    && (f.items[k].Block? ==> s.z.got <= |Decode(s.z.hist, f.items[k].toks).out|)
  }

  /** At boundary `k`, about to decode item `k`. */
  ghost predicate Ready(f: GzFile, bytes: seq<byte>, s: State, fpos: nat, k: nat) {
    && Inside(f, bytes, s, fpos, k) && s.z.got == 0 && s.wrap == s.z.mode && Ipos(s, fpos) == Bytes(f.ends[k])
  }

  /** The same, having arrived there by decoding: the unused bits are known. */
  ghost predicate Standing(f: GzFile, bytes: seq<byte>, s: State, fpos: nat, k: nat) {
    Ready(f, bytes, s, fpos, k) && s.z.bits == 8 * Ipos(s, fpos) - f.ends[k] && (0 < s.z.bits ==> Behind(bytes, s, fpos))
  }

  /** At the end of a member, whose trailer is item `k`. A raw stream has not
      taken the trailer. */
  ghost predicate Ended(f: GzFile, bytes: seq<byte>, s: State, fpos: nat, k: nat) {
    && IsFile(f, bytes) && Buffered(bytes, s, fpos) && k < |f.items| && f.items[k].Trailer?
    && s.wrap == s.z.mode && s.z.bits == 0
    && Ipos(s, fpos) == if s.z.mode.Raw? then Bytes(f.ends[k]) else Bytes(f.ends[k + 1])
  }

  ghost predicate Emitted(s: State, e: seq<byte>) {
    s.outBytes == |e| && Holds(s.outBuf, s.z.availOut, e)
  }

  lemma BytesBound(f: GzFile, bytes: seq<byte>, k: nat)
    requires IsFile(f, bytes) && k < |f.items|
    ensures Bytes(f.ends[k]) < Bytes(f.ends[k + 1]) <= |bytes|
    ensures k + 1 < |f.items| ==> Bytes(f.ends[k + 1]) < Bytes(f.ends[k + 2])
  {
    BytesIncrease(f, k, k + 1);
    if k + 1 < |f.items| {
      BytesIncrease(f, k + 1, |f.items|);
      BytesIncrease(f, k + 1, k + 2);
    }
  }

  // ----- What a call does to a reader -----

  /** The reader after a call that takes `c` bytes and puts out `n`. */
  function After(f: GzFile, s: State, fpos: nat, k: nat, c: nat, n: nat): State
    requires k < |f.items| < |f.ends| && c <= s.z.availIn && n <= s.z.availOut <= |s.outBuf|
  {
    var r := Inflate(f, s.z, k, Ipos(s, fpos), c, n);
    s.(z := r.z, outBuf := Write(s.outBuf, s.z.availOut, r.out), outBytes := s.outBytes + s.z.availOut - r.z.availOut)
  }

  function StatusOf(f: GzFile, s: State, fpos: nat, k: nat, c: nat, n: nat): Status
    requires k < |f.items| < |f.ends| && c <= s.z.availIn && n <= s.z.availOut
  {
    Inflate(f, s.z, k, Ipos(s, fpos), c, n).status
  }

  lemma BufferedAfter(f: GzFile, bytes: seq<byte>, s: State, fpos: nat, k: nat, c: nat, n: nat)
    requires Inside(f, bytes, s, fpos, k) && 0 < s.z.availOut && Allowed(f, s.z, k, Ipos(s, fpos), c, n)
    ensures var s' := After(f, s, fpos, k, c, n);
            && Buffered(bytes, s', fpos) && Ipos(s', fpos) == Ipos(s, fpos) + c
            && s'.input == s.input && s'.initOutPos == s.initOutPos && s'.wrap == s.wrap
            && (0 < c || Bytes(f.ends[k]) < Ipos(s, fpos) ==> Behind(bytes, s', fpos))
  {
    hide Decode, Bytes, Allowed, Takes, KeepsBack;
    KeptFields(f, s, fpos, k, c, n);
    InputAfter(bytes, s, fpos, c);
  }

  /** What is left of the input when `c` more bytes of it are taken. */
  lemma InputAfter(bytes: seq<byte>, s: State, fpos: nat, c: nat)
    requires Buffered(bytes, s, fpos) && c <= s.z.availIn
    ensures var a := s.z.availIn - c; s.input[|s.input| - a..] == bytes[fpos - a..fpos]
    ensures 0 < c ==> s.input[|s.input| - (s.z.availIn - c) - 1] == bytes[fpos - (s.z.availIn - c) - 1]
  {
    var a := s.z.availIn;
    var a' := a - c;
    assert s.input[|s.input| - a..][c..] == s.input[|s.input| - a'..];
    assert bytes[fpos - a..fpos][c..] == bytes[fpos - a'..fpos];
    if 0 < c {
      assert s.input[|s.input| - a..][c - 1] == bytes[fpos - a..fpos][c - 1];
    }
  }

  /** Part of a block: more of its output, or its end, or the copy it fails at. */
  lemma BlockCall(f: GzFile, bytes: seq<byte>, s: State, fpos: nat, k: nat, c: nat, n: nat, e: seq<byte>)
    requires Inside(f, bytes, s, fpos, k) && 0 < s.z.availOut && Allowed(f, s.z, k, Ipos(s, fpos), c, n)
    requires f.items[k].Block? && Takes(s.z, f.items[k]) && s.wrap == s.z.mode
    requires var d := Decode(s.z.hist, f.items[k].toks); Emitted(s, e + d.out[..s.z.got])
    ensures var d := Decode(s.z.hist, f.items[k].toks);
            var s', status := After(f, s, fpos, k, c, n), StatusOf(f, s, fpos, k, c, n);
            && s'.z.mode == s.z.mode && (status == OK || status == DataError)
            && (status == DataError <==> !d.ok && s.z.got + n == |d.out|)
            && (status == OK && s'.z.stop ==>
                  d.ok && s'.z.hist == s.z.hist + d.out && !s'.z.clean && Emitted(s', e + d.out) && Standing(f, bytes, s', fpos, k + 1))
            && (status == OK && !s'.z.stop ==>
                  Inside(f, bytes, s', fpos, k) && s'.z.hist == s.z.hist && s'.z.clean == s.z.clean && Emitted(s', e + d.out[..s'.z.got])
                  && Ipos(s', fpos) + s'.z.got > Ipos(s, fpos) + s.z.got)
  {
    hide Decode, Holds, Write;
    var d := Decode(s.z.hist, f.items[k].toks);
    BufferedAfter(f, bytes, s, fpos, k, c, n);
    BytesBound(f, bytes, k);
    var out := d.out[s.z.got..s.z.got + n];
    HoldsWrite(s.outBuf, s.z.availOut, e + d.out[..s.z.got], out);
    assert e + d.out[..s.z.got] + out == e + d.out[..s.z.got + n];
    assert MayFollow(f.items[k], f.items[k + 1]);
    assert d.out[..|d.out|] == d.out;
  }

  /** Part of a header. */
  lemma HeaderCall(f: GzFile, bytes: seq<byte>, s: State, fpos: nat, k: nat, c: nat, n: nat, e: seq<byte>)
    requires Inside(f, bytes, s, fpos, k) && 0 < s.z.availOut && Allowed(f, s.z, k, Ipos(s, fpos), c, n)
    requires f.items[k].Header? && Takes(s.z, f.items[k]) && s.wrap == s.z.mode && s.z.got == 0 && Emitted(s, e)
    ensures var s' := After(f, s, fpos, k, c, n);
            && StatusOf(f, s, fpos, k, c, n) == OK && s'.z.mode == s.z.mode && s'.z.hist == s.z.hist && Emitted(s', e)
            && (s'.z.stop ==> !s'.z.clean && Standing(f, bytes, s', fpos, k + 1))
            && (!s'.z.stop ==> Inside(f, bytes, s', fpos, k) && s'.z.clean && s'.z.got == 0 && Ipos(s', fpos) > Ipos(s, fpos))
  {
    hide Decode, Holds, Write;
    BufferedAfter(f, bytes, s, fpos, k, c, n);
    BytesBound(f, bytes, k);
    HoldsWrite(s.outBuf, s.z.availOut, e, []);
    assert e + [] == e;
    assert MayFollow(f.items[k], f.items[k + 1]) && ItemFits(f, k);
  }

  /** Part of a trailer, in gzip mode; all there is to do about it, in raw mode. */
  lemma TrailerCall(f: GzFile, bytes: seq<byte>, s: State, fpos: nat, k: nat, c: nat, n: nat, e: seq<byte>)
    requires Inside(f, bytes, s, fpos, k) && 0 < s.z.availOut && Allowed(f, s.z, k, Ipos(s, fpos), c, n)
    requires f.items[k].Trailer? && Takes(s.z, f.items[k]) && s.wrap == s.z.mode && s.z.got == 0 && Emitted(s, e)
    requires s.z.mode.Raw? ==> Ipos(s, fpos) == Bytes(f.ends[k])
    ensures var s', status := After(f, s, fpos, k, c, n), StatusOf(f, s, fpos, k, c, n);
            && s'.z.mode == s.z.mode && s'.z.hist == s.z.hist && Emitted(s', e) && !s'.z.stop
            && (status == StreamEnd ==> Ended(f, bytes, s', fpos, k))
            && (status != StreamEnd ==> status == OK && Inside(f, bytes, s', fpos, k) && !s'.z.clean && s'.z.got == 0
                                        && s.z.mode.Gzip? && Ipos(s', fpos) > Ipos(s, fpos))
  {
    hide Decode, Holds, Write;
    BufferedAfter(f, bytes, s, fpos, k, c, n);
    HoldsWrite(s.outBuf, s.z.availOut, e, []);
    assert e + [] == e;
  }

  /** More input, or a rewound output buffer: nothing the stream has done changes. */
  ghost predicate Refilled(s: State, fpos: nat, s': State, fpos': nat) {
    && s'.z == s.z.(availIn := s'.z.availIn, availOut := s'.z.availOut) && 0 < s'.z.availIn && 0 < s'.z.availOut
    && Ipos(s', fpos') == Ipos(s, fpos) && s'.initOutPos == s.initOutPos && s'.wrap == s.wrap
    && forall e: seq<byte> :: Emitted(s, e) ==> Emitted(s', e)
  }

  function ReadOn(bytes: seq<byte>, s: State, fpos: nat, r: nat): State
    requires fpos + r <= |bytes|
  {
    s.(input := bytes[fpos..fpos + r], z := s.z.(availIn := r))
  }

  function Rewind(s: State): State {
    s.(z := s.z.(availOut := |s.outBuf|))
  }

  lemma ReadOnInside(f: GzFile, bytes: seq<byte>, s: State, fpos: nat, r: nat, k: nat)
    requires Inside(f, bytes, s, fpos, k) && s.z.availIn == 0 && 0 < r && fpos + r <= |bytes|
    ensures Inside(f, bytes, ReadOn(bytes, s, fpos, r), fpos + r, k)
    ensures forall e: seq<byte> :: Emitted(s, e) ==> Emitted(ReadOn(bytes, s, fpos, r), e)
  {
    hide Decode, Holds, Bytes, WellFormed, PrimedRight;
    assert ReadOn(bytes, s, fpos, r).input[0..] == bytes[fpos..fpos + r];
  }

  lemma RewindEmitted(s: State, e: seq<byte>)
    requires Emitted(s, e) && s.z.availOut == 0
    ensures Emitted(Rewind(s), e)
  {
    assert (WINDOW - 0) % WINDOW == (WINDOW - WINDOW) % WINDOW;
  }

  lemma RewindInside(f: GzFile, bytes: seq<byte>, s: State, fpos: nat, k: nat)
    requires Inside(f, bytes, s, fpos, k) && s.z.availOut == 0
    ensures Inside(f, bytes, Rewind(s), fpos, k)
    ensures forall e: seq<byte> :: Emitted(s, e) ==> Emitted(Rewind(s), e)
  {
    hide Decode, Bytes, WellFormed, Emitted, PrimedRight;
    forall e: seq<byte> | Emitted(s, e)
      ensures Emitted(Rewind(s), e)
    {
      RewindEmitted(s, e);
    }
  }

  /** Inside item `k`, which was begun in state `s0` with `e` put out. */
  ghost predicate Decoding(f: GzFile, bytes: seq<byte>, s0: State, s: State, fpos: nat, k: nat, e: seq<byte>) {
    && Inside(f, bytes, s, fpos, k) && s.wrap == s.z.mode
    && s.z.mode == s0.z.mode && s.z.hist == s0.z.hist && s.z.clean == s0.z.clean
    && s.initOutPos == s0.initOutPos && s.wrap == s0.wrap
    && match f.items[k]
       case Block(toks) => Emitted(s, e + Decode(s.z.hist, toks).out[..s.z.got])
       case Header => s.z.got == 0 && Emitted(s, e)
       case Trailer => s.z.got == 0 && Emitted(s, e) && (s.z.mode.Raw? ==> Ipos(s, fpos) == Bytes(f.ends[k]))
  }

  /** How much of item `k` is left. */
  ghost function Left(f: GzFile, s: State, fpos: nat, k: nat): int
    requires k < |f.items| < |f.ends|
  {
    Bytes(f.ends[k + 1]) - Ipos(s, fpos) + match f.items[k]
      case Block(toks) => |Decode(s.z.hist, toks).out| - s.z.got
      case _ => 0
  }

  /** What decoding all of item `k` from state `s0` leads to. */
  ghost predicate Finished(f: GzFile, bytes: seq<byte>, s0: State, s: State, fpos: nat, k: nat, e: seq<byte>, status: Status) {
    && k < |f.items| && s.initOutPos == s0.initOutPos && s.wrap == s0.wrap
    && if !Takes(s0.z, f.items[k]) then status == if Hungry(f, k) then RunsOut else DataError
       else match f.items[k]
         case Header =>
           status == OK && Standing(f, bytes, s, fpos, k + 1) && !s.z.clean && s.z.hist == s0.z.hist && Emitted(s, e)
         case Trailer =>
           status == StreamEnd && Ended(f, bytes, s, fpos, k) && Emitted(s, e)
         case Block(toks) =>
           var d := Decode(s0.z.hist, toks);
           if d.ok then
             && status == OK && Standing(f, bytes, s, fpos, k + 1) && !s.z.clean
             && s.z.hist == s0.z.hist + d.out && Emitted(s, e + d.out)
           else status == DataError
  }

  /** One call of inflate inside item `k` either goes on decoding it or is done with it. */
  lemma OneCall(f: GzFile, bytes: seq<byte>, s0: State, s: State, fpos: nat, s1: State, fpos': nat, k: nat, c: nat, n: nat, e: seq<byte>)
    requires Decoding(f, bytes, s0, s, fpos, k, e) && Refilled(s, fpos, s1, fpos')
    requires Inside(f, bytes, s1, fpos', k) && Allowed(f, s1.z, k, Ipos(s1, fpos'), c, n)
    ensures var s', status := After(f, s1, fpos', k, c, n), StatusOf(f, s1, fpos', k, c, n);
            if status == OK && !s'.z.stop then
              Decoding(f, bytes, s0, s', fpos', k, e) && Left(f, s', fpos', k) < Left(f, s, fpos, k)
            else Finished(f, bytes, s0, s', fpos', k, e, status)
  {
    hide Decode, Standing, Ended, Emitted, Inflate, Allowed;
    KeptFields(f, s1, fpos', k, c, n);
    if !Takes(s1.z, f.items[k]) {
      NotTaken(f, s1, fpos', k, c, n);
    } else {
      match f.items[k]
      case Header => HeaderCall(f, bytes, s1, fpos', k, c, n, e);
      case Trailer => TrailerCall(f, bytes, s1, fpos', k, c, n, e);
      case Block(toks) => BlockCall(f, bytes, s1, fpos', k, c, n, e);
    }
  }

  lemma KeptFields(f: GzFile, s: State, fpos: nat, k: nat, c: nat, n: nat)
    requires k < |f.items| < |f.ends| && s.z.availOut <= |s.outBuf| && Allowed(f, s.z, k, Ipos(s, fpos), c, n)
    ensures c <= s.z.availIn && n <= s.z.availOut
    ensures var s' := After(f, s, fpos, k, c, n); s'.initOutPos == s.initOutPos && s'.wrap == s.wrap
  {
  }

  lemma NotTaken(f: GzFile, s: State, fpos: nat, k: nat, c: nat, n: nat)
    requires k < |f.items| < |f.ends| && c <= s.z.availIn && n <= s.z.availOut <= |s.outBuf|
    requires !Takes(s.z, f.items[k])
    ensures StatusOf(f, s, fpos, k, c, n) == if Hungry(f, k) then RunsOut else DataError
  {
  }

  /** A reader that has read nothing. */
  function FirstState(): State {
    State(ZStream(None, 0, [], Gzip, true, false, 0, 0, 0, WINDOW, 0, false), [], 0, seq(WINDOW, _ => 0), 0, Gzip)
  }

  lemma FirstStanding(f: GzFile, bytes: seq<byte>)
    requires IsFile(f, bytes)
    ensures Standing(f, bytes, FirstState(), 0, 0) && Emitted(FirstState(), [])
  {
    hide Decode;
    assert ItemFits(f, 0);
    BytesBound(f, bytes, 0);
  }

  /** A reader over a file, with a second reader to swap with. */
  class SavingGzipReader {
    const f: GzFile
    const bytes: seq<byte>
    var fpos: nat // where the file handle both readers share stands
    var live: State
    var saved: Option<State>
    var saveSeek: nat

    constructor (f: GzFile, bytes: seq<byte>)
      requires IsFile(f, bytes)
      ensures this.f == f && this.bytes == bytes && saved == None
      ensures Standing(f, bytes, live, fpos, 0) && Emitted(live, []) && live.initOutPos == 0
      ensures live.wrap == Gzip && live.z.clean && live.z.hist == []
    {
      hide Standing, Emitted;
      this.f, this.bytes := f, bytes;
      fpos, saveSeek, saved := 0, 0, None;
      live := FirstState();
      new;
      FirstStanding(f, bytes);
    }

    /** The part of `step` before inflate: read on, or start the output buffer over. */
    method Refill(ghost k: nat)
      requires Inside(f, bytes, live, fpos, k)
      modifies this`live, this`fpos
      ensures Inside(f, bytes, live, fpos, k) && Refilled(old(live), old(fpos), live, fpos)
    {
      hide Inside, Emitted;
      if live.z.availIn == 0 {
        HasMore(f, bytes, live, fpos, k);
        var r: nat :| 1 <= r <= CHUNK_SIZE && fpos + r <= |bytes|;
        ReadOnInside(f, bytes, live, fpos, r, k);
        live := ReadOn(bytes, live, fpos, r);
        fpos := fpos + r;
      }
      if live.z.availOut == 0 {
        HasMore(f, bytes, live, fpos, k);
        RewindInside(f, bytes, live, fpos, k);
        live := Rewind(live); // writeOut
      }
    }

    method Step(ghost k: nat, ghost s0: State, ghost e: seq<byte>) returns (status: Status)
      requires Decoding(f, bytes, s0, live, fpos, k, e)
      modifies this`live, this`fpos
      ensures if status == OK && !live.z.stop then
                Decoding(f, bytes, s0, live, fpos, k, e) && Left(f, live, fpos, k) < old(Left(f, live, fpos, k))
              else Finished(f, bytes, s0, live, fpos, k, e, status)
    {
      hide Decode, Decoding, Finished, Emitted, Inflate, Allowed, Left, Write;
      ghost var s, pos := live, fpos;
      DecodingInside(f, bytes, s0, live, fpos, k, e);
      Refill(k);
      var ipos := Ipos(live, fpos);
      var at := FindBoundary(f, Place(bytes, live.z, ipos));
      BoundaryFound(f, k, 0);
      CanGoOn(f, live.z, at, ipos);
      var c: nat, n: nat :| c <= live.z.availIn && n <= live.z.availOut && Allowed(f, live.z, at, ipos, c, n);
      OneCall(f, bytes, s0, s, pos, live, fpos, k, c, n, e);
      status := StatusOf(f, live, fpos, at, c, n);
      live := After(f, live, fpos, at, c, n);
    }

    /** Read to the next boundary. */
    method Block(ghost k: nat, ghost e: seq<byte>) returns (status: Status)
      requires Ready(f, bytes, live, fpos, k) && Emitted(live, e)
      modifies this`live, this`fpos
      ensures Finished(f, bytes, old(live), live, fpos, k, e, status)
    {
      hide Decode, Finished, Emitted;
      ghost var s0 := live;
      ReadyDecoding(f, bytes, live, fpos, k, e);
      while true
        invariant Decoding(f, bytes, s0, live, fpos, k, e)
        decreases Left(f, live, fpos, k)
      {
        DecodingInside(f, bytes, s0, live, fpos, k, e);
        status := Step(k, s0, e);
        if status == DataError || status == RunsOut || live.z.stop || status == StreamEnd {
          return;
        }
      }
    }

    /** Put the current state aside, and start over here with an empty window.
        The byte to prime the new stream with must be in the input buffer. */
    method Save(ghost k: nat)
      requires Standing(f, bytes, live, fpos, k) && CanPrime(live)
      modifies this
      ensures fpos == old(fpos) && saved == Some(old(live)) && saveSeek == old(fpos)
      ensures Ready(f, bytes, live, fpos, k) && Emitted(live, [])
      ensures live.z.mode == Raw && live.z.clean && live.z.hist == [] && live.initOutPos == old(live).Opos()
    {
      hide Decode, Standing, Ready, Emitted, Resize, IsFile, PrimedRight;
      ghost var old_ := live;
      if saved == None {
        saved := Some(State(ZStream(None, 0, [], Gzip, true, false, 0, 0, 0, 0, 0, false), [], 0, [], 0, Gzip));
      }
      ghost var other := saved.value;
      live, saved := saved.value, Some(live); // swap
      saveSeek := fpos;

      // the other reader, emptied, takes the place of this one
      live := live.(wrap := Raw, z := ResetStream(live.z, Raw));
      live := live.(input := saved.value.input, z := live.z.(availIn := saved.value.z.availIn));
      live := live.(outBuf := Resize(live.outBuf, WINDOW));
      live := live.(z := live.z.(availOut := |live.outBuf|));
      var bits := saved.value.Ibits();
      if bits != 0 {
        Primes(f, bytes, old_, fpos, k);
        var prime := live.input[|live.input| - live.z.availIn - 1];
        live := live.(z := live.z.(primed := bits, value := prime >> (8 - bits)));
      }
      PrimedUnused(bytes, bits, live.z.value, Ipos(old_, fpos));
      live := live.(initOutPos := saved.value.Opos(), outBytes := 0);
      assert live == StartOver(other, old_, live.z.value);
      StartOverReady(f, bytes, other, old_, live.z.value, fpos, k);
    }

    /** Go back to the state put aside; the abandoned one takes its place. */
    method Restore()
      requires saved.Some?
      modifies this
      ensures live == old(saved).value && fpos == old(saveSeek) && saved == Some(old(live)) && saveSeek == old(saveSeek)
    {
      live, saved := saved.value, Some(live); // swap
      fpos := saveSeek;
    }

    /** Step over a trailer that the wrapper has not dealt with. */
    method SkipFooter(ghost k: nat, ghost e: seq<byte>)
      requires Ended(f, bytes, live, fpos, k) && Emitted(live, e)
      modifies this`live, this`fpos
      ensures PastTrailer(f, bytes, live, fpos, k) && Emitted(live, e)
      ensures live.initOutPos == old(live).initOutPos
    {
      BytesBound(f, bytes, k);
      assert ItemFits(f, k);
      if live.wrap == Gzip {
        return; // the wrapper has taken it
      }
      if live.z.availIn < FOOTER_SIZE {
        fpos := fpos + (FOOTER_SIZE - live.z.availIn);
        live := live.(z := live.z.(availIn := 0));
      } else {
        ghost var a := live.z.availIn;
        assert live.input[|live.input| - a..][FOOTER_SIZE..] == bytes[fpos - a..fpos][FOOTER_SIZE..];
        live := live.(z := live.z.(availIn := live.z.availIn - FOOTER_SIZE));
      }
    }

    /** Start on the next member. */
    method Reset(w: Wrapper, ghost k: nat, ghost e: seq<byte>)
      requires PastTrailer(f, bytes, live, fpos, k) && Emitted(live, e) && k + 1 < |f.items|
      modifies this`live
      ensures Standing(f, bytes, live, fpos, k + 1) && Emitted(live, e)
      ensures live.z.mode == w && live.z.clean && live.z.hist == [] && live.initOutPos == old(live).initOutPos
    {
      hide Decode;
      assert ItemFits(f, k) && MayFollow(f.items[k], f.items[k + 1]);
      BytesBound(f, bytes, k);
      live := live.(wrap := w, z := ResetStream(live.z, w));
    }

    /** The last window of output, oldest byte first. */
    method CopyWindow(ghost e: seq<byte>) returns (dict: seq<byte>)
      requires Emitted(live, e) && WINDOW <= |e|
      ensures dict == e[|e| - WINDOW..]
    {
      HoldsWindow(live.outBuf, live.z.availOut, e);
      var mid := |live.outBuf| - live.z.availOut;
      dict := live.outBuf[mid..] + live.outBuf[..mid]; // rotate_copy
    }
  }

  /** Past the trailer of a member, whichever way it was taken. */
  ghost predicate PastTrailer(f: GzFile, bytes: seq<byte>, s: State, fpos: nat, k: nat) {
    && IsFile(f, bytes) && Buffered(bytes, s, fpos) && k < |f.items| && f.items[k].Trailer?
    && s.wrap == s.z.mode && s.z.bits == 0 && Ipos(s, fpos) == Bytes(f.ends[k + 1])
  }

  /** The reader `other`, made to start a raw stream where `here` stands, primed
      with `value`. */
  function StartOver(other: State, here: State, value: byte): State {
    State(ResetStream(other.z, Raw).(availIn := here.z.availIn, availOut := WINDOW, primed := here.Ibits(), value := value),
          here.input, 0, Resize(other.outBuf, WINDOW), here.Opos(), Raw)
  }

  lemma StartOverReady(f: GzFile, bytes: seq<byte>, other: State, here: State, value: byte, fpos: nat, k: nat)
    requires Standing(f, bytes, here, fpos, k) && PrimedRight(bytes, here.Ibits(), value, Ipos(here, fpos))
    ensures var s := StartOver(other, here, value);
            && Ready(f, bytes, s, fpos, k) && Emitted(s, [])
            && s.z.mode == Raw && s.z.clean && s.z.hist == [] && s.initOutPos == here.Opos()
  {
    hide Decode, PrimedRight;
    BytesBound(f, bytes, k);
    assert (WINDOW - WINDOW) % WINDOW == 0;
  }

  /** The call that comes to the end of a block leaves the byte its unused bits
      are from in the input buffer if and only if the call took that byte, or
      no more input has been read since one that could not put out all of the
      block took it. Then it is the byte a new stream must be primed with. */
  lemma PrimedByte(f: GzFile, bytes: seq<byte>, s: State, fpos: nat, k: nat, c: nat, n: nat)
    requires Inside(f, bytes, s, fpos, k) && 0 < s.z.availOut && Allowed(f, s.z, k, Ipos(s, fpos), c, n)
    requires f.items[k].Block? && Takes(s.z, f.items[k])
    requires var s' := After(f, s, fpos, k, c, n); StatusOf(f, s, fpos, k, c, n) == OK && s'.z.stop && 0 < s'.z.bits
    ensures var s' := After(f, s, fpos, k, c, n);
            && (CanPrime(s') <==> 0 < c || s.z.availIn < |s.input|)
            && (c == 0 ==> Ipos(s, fpos) == Bytes(f.ends[k + 1]) && KeepsBack(s.z, f.items[k]))
            && (CanPrime(s') ==> 0 < Ipos(s', fpos) && s'.input[|s'.input| - s'.z.availIn - 1] == bytes[Ipos(s', fpos) - 1])
  {
    hide Decode;
    BufferedAfter(f, bytes, s, fpos, k, c, n);
    BytesBound(f, bytes, k);
  }

  /** Where a reader stands, that byte is the one in the file. */
  lemma Primes(f: GzFile, bytes: seq<byte>, s: State, fpos: nat, k: nat)
    requires Standing(f, bytes, s, fpos, k) && CanPrime(s) && s.Ibits() != 0
    ensures s.z.availIn < |s.input| && 0 < Ipos(s, fpos) <= |bytes| && s.Ibits() <= 8
    ensures s.input[|s.input| - s.z.availIn - 1] == bytes[Ipos(s, fpos) - 1]
  {
    hide Decode;
  }

  function Resize(b: seq<byte>, n: nat): (r: seq<byte>)
    ensures |r| == n && forall i | 0 <= i < n && i < |b| :: r[i] == b[i]
  {
    if n <= |b| then b[..n] else b + seq(n - |b|, _ => 0)
  }

  /** However many blocks a trial reads, and however they turn out, restoring
      leaves no trace of it; unless it runs out of file, and nothing is restored. */
  method TrialLeavesNoTrace(rd: SavingGzipReader, s: nat, blocks: nat) returns (restored: bool)
    requires Standing(rd.f, rd.bytes, rd.live, rd.fpos, s) && CanPrime(rd.live)
    modifies rd
    ensures restored ==> rd.live == old(rd.live) && rd.fpos == old(rd.fpos)
    ensures !restored ==> Hungry(rd.f, s)
  {
    hide Finished, Ready, Standing, Emitted;
    rd.Save(s);
    ghost var k, e: seq<byte> := s, [];
    var i := 0;
    while i < blocks
      invariant Ready(rd.f, rd.bytes, rd.live, rd.fpos, k) && Emitted(rd.live, e)
      invariant rd.saved == Some(old(rd.live)) && rd.saveSeek == old(rd.fpos)
      invariant rd.live.z.clean ==> k == s
    {
      ghost var was := rd.live;
      var status := rd.Block(k, e);
      if status == RunsOut {
        OutAtOnce(rd.f, rd.bytes, was, rd.live, rd.fpos, k, e);
        return false; // EOFException
      }
      if status != OK {
        break;
      }
      e := FinishedOK(rd.f, rd.bytes, was, rd.live, rd.fpos, k, e);
      k := k + 1;
      i := i + 1;
    }
    rd.Restore();
    restored := true;
  }

  lemma OutAtOnce(f: GzFile, bytes: seq<byte>, s0: State, s: State, fpos: nat, k: nat, e: seq<byte>)
    requires Finished(f, bytes, s0, s, fpos, k, e, RunsOut)
    ensures s0.z.clean && Hungry(f, k)
  {
    hide Decode, Standing, Ended, Emitted;
  }

  lemma FinishedOK(f: GzFile, bytes: seq<byte>, s0: State, s: State, fpos: nat, k: nat, e: seq<byte>) returns (e': seq<byte>)
    requires Finished(f, bytes, s0, s, fpos, k, e, OK)
    ensures Ready(f, bytes, s, fpos, k + 1) && Emitted(s, e') && !s.z.clean
  {
    hide Decode, Standing, Ready, Emitted;
    e' := match f.items[k] case Block(toks) => e + Decode(s0.z.hist, toks).out case _ => e;
    StandingReady(f, bytes, s, fpos, k + 1);
  }

  lemma StandingReady(f: GzFile, bytes: seq<byte>, s: State, fpos: nat, k: nat)
    ensures Standing(f, bytes, s, fpos, k) ==> Ready(f, bytes, s, fpos, k)
  {
  }

  lemma HasMore(f: GzFile, bytes: seq<byte>, s: State, fpos: nat, k: nat)
    requires Inside(f, bytes, s, fpos, k)
    ensures Ipos(s, fpos) < |bytes| && |s.outBuf| == WINDOW
  {
    BytesBound(f, bytes, k);
    if k + 1 < |f.items| {
      BytesBound(f, bytes, k + 1);
    }
  }

  lemma DecodingInside(f: GzFile, bytes: seq<byte>, s0: State, s: State, fpos: nat, k: nat, e: seq<byte>)
    requires Decoding(f, bytes, s0, s, fpos, k, e)
    ensures Inside(f, bytes, s, fpos, k) && 0 <= Left(f, s, fpos, k)
  {
  }

  lemma ReadyDecoding(f: GzFile, bytes: seq<byte>, s: State, fpos: nat, k: nat, e: seq<byte>)
    requires Ready(f, bytes, s, fpos, k) && Emitted(s, e)
    ensures Decoding(f, bytes, s, s, fpos, k, e)
  {
    if f.items[k].Block? {
      assert e + Decode(s.z.hist, f.items[k].toks).out[..0] == e;
    }
  }
}
