/** DEFLATE as a sequence of literals and copies (sections 2 and 3.2.5 of RFC
    1951), decoded against whatever history the decoder has. */
module Deflate {
  import opened Bits

  const WINDOW: nat := 32768

  datatype AnyToken = Literal(b: byte) | Copy(dist: nat, len: nat)
  type Token = t: AnyToken | t.Copy? ==> 1 <= t.dist <= WINDOW && 3 <= t.len <= 258 witness Literal(0)

  /** What a decoder puts out, and whether it reached the end: it stops at a
      copy that reaches back past everything it knows. */
  datatype Decoded = Decoded(out: seq<byte>, ok: bool)

  function CopyBytes(hist: seq<byte>, dist: nat, n: nat): (c: seq<byte>)
    requires 1 <= dist <= |hist|
    ensures |c| == n
    decreases n
  {
    if n == 0 then []
    else
      var b := hist[|hist| - dist];
      [b] + CopyBytes(hist + [b], dist, n - 1)
  }

  function TokenBytes(hist: seq<byte>, t: Token): Decoded {
    match t
    case Literal(b) => Decoded([b], true)
    case Copy(d, n) => if |hist| < d then Decoded([], false) else Decoded(CopyBytes(hist, d, n), true)
  }

  function Decode(hist: seq<byte>, toks: seq<Token>): Decoded
    decreases |toks|
  {
    if toks == [] then Decoded([], true)
    else
      var first := TokenBytes(hist, toks[0]);
      if !first.ok then first
      else
        var rest := Decode(hist + first.out, toks[1..]);
        Decoded(first.out + rest.out, rest.ok)
  }

  /** A copy puts out, byte for byte, what stands `dist` bytes further back,
      itself included. */
  lemma {:induction false} CopyRepeats(hist: seq<byte>, dist: nat, n: nat, i: nat)
    requires 1 <= dist <= |hist| && i < n
    ensures CopyBytes(hist, dist, n)[i] == (hist + CopyBytes(hist, dist, n))[|hist| - dist + i]
    decreases n
  {
    var b := hist[|hist| - dist];
    var rest := CopyBytes(hist + [b], dist, n - 1);
    assert hist + CopyBytes(hist, dist, n) == hist + [b] + rest;
    if 0 < i {
      CopyRepeats(hist + [b], dist, n - 1, i - 1);
    }
  }

  /** And it is the only such run of bytes. */
  lemma {:induction false} CopyUnique(hist: seq<byte>, dist: nat, c: seq<byte>)
    requires 1 <= dist <= |hist| && forall i | 0 <= i < |c| :: c[i] == (hist + c)[|hist| - dist + i]
    ensures c == CopyBytes(hist, dist, |c|)
    decreases |c|
  {
    if c != [] {
      var b, rest := hist[|hist| - dist], c[1..];
      assert c[0] == b && hist + [b] + rest == hist + c;
      assert forall i | 0 <= i < |rest| :: rest[i] == c[i + 1];
      CopyUnique(hist + [b], dist, rest);
    }
  }

  // ----- What a decode puts out -----

  function Length(t: Token): nat {
    match t
    case Literal(_) => 1
    case Copy(_, n) => n
  }

  function Size(toks: seq<Token>): nat {
    if toks == [] then 0 else Length(toks[0]) + Size(toks[1..])
  }

  /** Token `t` is what stands at `p` in the output: a literal its own byte, a
      copy the bytes `dist` further back in history and output. */
  ghost predicate Stands(hist: seq<byte>, out: seq<byte>, p: nat, t: Token) {
    p + Length(t) <= |out| &&
    match t
    case Literal(b) => out[p] == b
    case Copy(d, n) => d <= |hist| + p && forall q | p <= q < p + n :: out[q] == (hist + out)[|hist| + q - d]
  }

  /** `out` is the tokens, one after another, and nothing more. */
  ghost predicate Spells(hist: seq<byte>, out: seq<byte>, toks: seq<Token>) {
    |out| == Size(toks) && forall j: nat | j < |toks| :: Stands(hist, out, Size(toks[..j]), toks[j])
  }

  /** A decode reaches its end with exactly the output in which every literal
      and every copy stands at its place; there is at most one. */
  lemma {:induction false} DecodeExact(hist: seq<byte>, toks: seq<Token>, out: seq<byte>)
    ensures Decode(hist, toks) == Decoded(out, true) <==> Spells(hist, out, toks)
    decreases |toks|
  {
    hide Stands, CopyBytes;
    if toks != [] {
      var t, rest := toks[0], toks[1..];
      var n := Length(t);
      if n <= |out| {
        var first, later := out[..n], out[n..];
        assert out == first + later;
        SpellsCons(hist, first, later, toks);
        FirstToken(hist, first, later, t);
        DecodeExact(hist + first, rest, later);
        DecodeCons(hist, toks, first, later);
      } else {
        SizeOfDecode(hist, toks);
      }
    }
  }

  lemma DecodeCons(hist: seq<byte>, toks: seq<Token>, first: seq<byte>, later: seq<byte>)
    requires toks != [] && |first| == Length(toks[0])
    ensures Decode(hist, toks) == Decoded(first + later, true) <==>
            TokenBytes(hist, toks[0]) == Decoded(first, true) && Decode(hist + first, toks[1..]) == Decoded(later, true)
  {
    hide CopyBytes;
    var d := TokenBytes(hist, toks[0]);
    if Decode(hist, toks) == Decoded(first + later, true) {
      assert |d.out| == |first|;
      assert (first + later)[..|first|] == first && (first + later)[|first|..] == later;
      var r := Decode(hist + d.out, toks[1..]);
      assert (d.out + r.out)[..|first|] == d.out && (d.out + r.out)[|first|..] == r.out;
    }
  }

  lemma {:induction false} SizeOfDecode(hist: seq<byte>, toks: seq<Token>)
    ensures Decode(hist, toks).ok ==> |Decode(hist, toks).out| == Size(toks)
    decreases |toks|
  {
    hide CopyBytes;
    if toks != [] {
      SizeOfDecode(hist + TokenBytes(hist, toks[0]).out, toks[1..]);
    }
  }

  /** The first token stands at the front exactly when it puts out what is there. */
  lemma FirstToken(hist: seq<byte>, first: seq<byte>, later: seq<byte>, t: Token)
    requires |first| == Length(t)
    ensures Stands(hist, first + later, 0, t) <==> TokenBytes(hist, t) == Decoded(first, true)
  {
    var out := first + later;
    match t
    case Literal(b) => assert out[0] == first[0];
    case Copy(d, n) =>
      if d <= |hist| {
        assert forall q | 0 <= q < n :: out[q] == first[q] && (hist + out)[|hist| + q - d] == (hist + first)[|hist| - d + q];
        forall q: nat | q < n
          ensures CopyBytes(hist, d, n)[q] == (hist + CopyBytes(hist, d, n))[|hist| - d + q]
        {
          CopyRepeats(hist, d, n, q);
        }
        if Stands(hist, out, 0, t) {
          forall i | 0 <= i < |first|
            ensures first[i] == (hist + first)[|hist| - d + i]
          {
            assert out[i] == first[i];
          }
          CopyUnique(hist, d, first);
        }
      }
  }

  lemma SpellsCons(hist: seq<byte>, first: seq<byte>, later: seq<byte>, toks: seq<Token>)
    requires toks != [] && |first| == Length(toks[0])
    ensures Spells(hist, first + later, toks) <==>
            Stands(hist, first + later, 0, toks[0]) && Spells(hist + first, later, toks[1..])
  {
    hide Stands;
    var out, rest := first + later, toks[1..];
    assert toks[..0] == [];
    forall j: nat | j < |rest|
      ensures Size(toks[..j + 1]) == |first| + Size(rest[..j])
      ensures Stands(hist + first, later, Size(rest[..j]), rest[j]) <==> Stands(hist, out, Size(toks[..j + 1]), toks[j + 1])
    {
      assert toks[..j + 1][1..] == rest[..j];
      StandsShifted(hist, first, later, Size(rest[..j]), rest[j]);
    }
    if Stands(hist, out, 0, toks[0]) && Spells(hist + first, later, rest) {
      forall j: nat | j < |toks|
        ensures Stands(hist, out, Size(toks[..j]), toks[j])
      {
        if 0 < j {
          assert Stands(hist + first, later, Size(rest[..j - 1]), rest[j - 1]);
        }
      }
    }
    if Spells(hist, out, toks) {
      assert Stands(hist, out, Size(toks[..0]), toks[0]);
      forall j: nat | j < |rest|
        ensures Stands(hist + first, later, Size(rest[..j]), rest[j])
      {
        var j' := j + 1;
        assert Stands(hist, out, Size(toks[..j']), toks[j']);
      }
    }
  }

  lemma StandsShifted(hist: seq<byte>, first: seq<byte>, later: seq<byte>, p: nat, t: Token)
    ensures Stands(hist + first, later, p, t) <==> Stands(hist, first + later, |first| + p, t)
  {
    var out := first + later;
    assert hist + first + later == hist + out;
    if t.Copy? && p + t.len <= |later| && t.dist <= |hist + first| + p {
      if Stands(hist + first, later, p, t) {
        forall q | |first| + p <= q < |first| + p + t.len
          ensures out[q] == (hist + out)[|hist| + q - t.dist]
        {
          assert out[q] == later[q - |first|];
        }
      }
      if Stands(hist, out, |first| + p, t) {
        forall q | p <= q < p + t.len
          ensures later[q] == (hist + first + later)[|hist + first| + q - t.dist]
        {
          assert out[|first| + q] == later[q];
        }
      }
    }
  }

  /** Decoding goes on where it left off. */
  lemma {:induction false} DecodeAppend(hist: seq<byte>, a: seq<Token>, b: seq<Token>)
    requires Decode(hist, a).ok
    ensures var d := Decode(hist, a); var r := Decode(hist + d.out, b);
            Decode(hist, a + b) == Decoded(d.out + r.out, r.ok)
    decreases |a|
  {
    hide TokenBytes;
    if a == [] {
      assert a + b == b && hist + [] == hist;
    } else {
      var first := TokenBytes(hist, a[0]);
      DecodeAppend(hist + first.out, a[1..], b);
      assert (a + b)[1..] == a[1..] + b && (a + b)[0] == a[0];
      assert hist + first.out + Decode(hist + first.out, a[1..]).out == hist + (first.out + Decode(hist + first.out, a[1..]).out);
    }
  }

  /** A decode that does not reach its end stops at the first copy that reaches
      further back than there is anything, with the output so far. */
  lemma {:induction false} DecodeStops(hist: seq<byte>, toks: seq<Token>) returns (j: nat)
    requires !Decode(hist, toks).ok
    ensures j < |toks| && toks[j].Copy? && Decode(hist, toks[..j]) == Decoded(Decode(hist, toks).out, true)
    ensures |hist| + Size(toks[..j]) < toks[j].dist
    decreases |toks|
  {
    hide CopyBytes;
    var first := TokenBytes(hist, toks[0]);
    if !first.ok {
      j := 0;
    } else {
      var k := DecodeStops(hist + first.out, toks[1..]);
      j := k + 1;
      assert toks[..j][1..] == toks[1..][..k] && toks[..j][0] == toks[0];
    }
  }

  lemma {:induction false} CopySuffix(pre: seq<byte>, hist: seq<byte>, dist: nat, n: nat)
    requires 1 <= dist <= |hist|
    ensures CopyBytes(pre + hist, dist, n) == CopyBytes(hist, dist, n)
    decreases n
  {
    if n != 0 {
      var b := hist[|hist| - dist];
      assert pre + hist + [b] == pre + (hist + [b]);
      CopySuffix(pre, hist + [b], dist, n - 1);
    }
  }

  /** A decoder with more history repeats what one with less puts out, and can
      only get further. */
  lemma {:induction false} SuffixAgrees(pre: seq<byte>, hist: seq<byte>, toks: seq<Token>)
    ensures Decode(hist, toks).out <= Decode(pre + hist, toks).out
    ensures Decode(hist, toks).ok ==> Decode(pre + hist, toks) == Decode(hist, toks)
    decreases |toks|
  {
    if toks != [] {
      var t := toks[0];
      var first := TokenBytes(hist, t);
      if first.ok {
        if t.Copy? {
          CopySuffix(pre, hist, t.dist, t.len);
        }
        assert TokenBytes(pre + hist, t) == first;
        assert pre + hist + first.out == pre + (hist + first.out);
        SuffixAgrees(pre, hist + first.out, toks[1..]);
      }
    }
  }

  /** A full window is all the history there is any need for. */
  lemma {:induction false} WindowEnough(pre: seq<byte>, hist: seq<byte>, toks: seq<Token>)
    requires WINDOW <= |hist|
    ensures Decode(pre + hist, toks) == Decode(hist, toks)
    decreases |toks|
  {
    if toks != [] {
      var t := toks[0];
      var first := TokenBytes(hist, t);
      if t.Copy? {
        CopySuffix(pre, hist, t.dist, t.len);
      }
      assert TokenBytes(pre + hist, t) == first;
      assert pre + hist + first.out == pre + (hist + first.out);
      WindowEnough(pre, hist + first.out, toks[1..]);
    }
  }
}

/** A gzip file as the indexer meets it: members, each a header, DEFLATE blocks
    and a trailer, with the bit position of every boundary between them. */
module GzipLayout {
  import opened Bits
  import opened Deflate

  datatype Item = Header | Block(toks: seq<Token>) | Trailer

  /** `ends[k]` is the bit position of boundary `k`, where item `k` starts. A
      decode begun at one of the trailers in `hungry` takes what follows for a
      block that the file ends in. */
  datatype GzFile = GzFile(items: seq<Item>, ends: seq<nat>, hungry: set<nat>)

  predicate Hungry(f: GzFile, k: nat) {
    k < |f.items| && f.items[k].Trailer? && k in f.hungry
  }

  const TRAILER_BITS: nat := 64

  function Bytes(bits: nat): nat {
    (bits + 7) / 8
  }

  /** What may follow what. */
  predicate MayFollow(a: Item, b: Item) {
    match a
    case Header => b.Block?
    case Block(_) => b.Block? || b.Trailer?
    case Trailer => b.Header?
  }

  /** The layout of a well-formed file (RFC 1952, section 2.2): headers and
      trailers are whole bytes, a trailer is eight bytes after the padding of
      the last block, and no block is shorter than ten bits. */
  predicate WellFormed(f: GzFile) {
    && |f.ends| == |f.items| + 1 && f.ends[0] == 0
    && f.items != [] && f.items[0].Header? && f.items[|f.items| - 1].Trailer?
    && (forall k: nat | k + 1 < |f.items| :: MayFollow(f.items[k], f.items[k + 1]))
    && (forall k: nat | k < |f.items| :: ItemFits(f, k))
  }

  predicate ItemFits(f: GzFile, k: nat)
    requires |f.ends| == |f.items| + 1 && k < |f.items|
  {
    match f.items[k]
    case Header => f.ends[k] % 8 == 0 && f.ends[k + 1] % 8 == 0 && f.ends[k] + 80 <= f.ends[k + 1]
    case Block(_) => f.ends[k] + 10 <= f.ends[k + 1]
    case Trailer => f.ends[k + 1] == 8 * Bytes(f.ends[k]) + TRAILER_BITS
  }

  /** Output of the current member up to boundary `k`. */
  function MemberOut(f: GzFile, k: nat): seq<byte>
    requires k <= |f.items|
  {
    if k == 0 then []
    else match f.items[k - 1]
      case Block(toks) => MemberOut(f, k - 1) + Decode(MemberOut(f, k - 1), toks).out
      case _ => []
  }

  /** Output of item `k` in a decode of the whole file. */
  function ItemOut(f: GzFile, k: nat): seq<byte>
    requires k < |f.items|
  {
    match f.items[k]
    case Block(toks) => Decode(MemberOut(f, k), toks).out
    case _ => []
  }

  /** Output of the whole file up to boundary `k`. */
  function Out(f: GzFile, k: nat): seq<byte>
    requires k <= |f.items|
  {
    if k == 0 then [] else Out(f, k - 1) + ItemOut(f, k - 1)
  }

  /** Every block decodes in its place. */
  ghost predicate Decodes(f: GzFile) {
    forall k: nat | k < |f.items| && f.items[k].Block? :: Decode(MemberOut(f, k), f.items[k].toks).ok
  }

  lemma {:induction false} OutGrows(f: GzFile, j: nat, k: nat)
    requires j <= k <= |f.items|
    ensures Out(f, j) <= Out(f, k)
    decreases k
  {
    hide ItemOut;
    if j < k {
      OutGrows(f, j, k - 1);
    }
  }

  /** The tokens of the blocks among items `j` to `k`. */
  function Tokens(f: GzFile, j: nat, k: nat): seq<Token>
    requires j <= k <= |f.items|
    decreases k
  {
    if j == k then []
    else Tokens(f, j, k - 1) + match f.items[k - 1] case Block(toks) => toks case _ => []
  }

  /** The blocks of a member decode as one: nothing starts over between them,
      and nothing is carried into the next member. */
  lemma {:induction false} MemberDecodes(f: GzFile, h: nat, k: nat)
    requires h < k <= |f.items| && f.items[h].Header?
    requires forall j | h < j < k :: f.items[j].Block? && Decode(MemberOut(f, j), f.items[j].toks).ok
    ensures Decode([], Tokens(f, h + 1, k)) == Decoded(MemberOut(f, k), true)
    ensures Out(f, k) == Out(f, h) + MemberOut(f, k)
    decreases k
  {
    hide Decode, MemberOut, Out;
    if k == h + 1 {
      NoTokens();
      HeaderOut(f, h);
    } else {
      MemberDecodes(f, h, k - 1);
      BlockOut(f, k - 1);
      var before, toks := Tokens(f, h + 1, k - 1), f.items[k - 1].toks;
      DecodeAppend([], before, toks);
      assert Tokens(f, h + 1, k) == before + toks;
      assert [] + MemberOut(f, k - 1) == MemberOut(f, k - 1);
    }
  }

  lemma HeaderOut(f: GzFile, h: nat)
    requires h < |f.items| && f.items[h].Header?
    ensures MemberOut(f, h + 1) == [] && Out(f, h + 1) == Out(f, h)
  {
  }

  lemma BlockOut(f: GzFile, k: nat)
    requires k < |f.items| && f.items[k].Block?
    ensures var d := Decode(MemberOut(f, k), f.items[k].toks);
            MemberOut(f, k + 1) == MemberOut(f, k) + d.out && Out(f, k + 1) == Out(f, k) + d.out
  {
    hide Decode;
  }

  lemma NoTokens()
    ensures Decode([], []) == Decoded([], true)
  {
  }

  /** The output of a member is the tail of the output of the file. */
  lemma {:induction false} MemberIsTail(f: GzFile, k: nat) returns (pre: seq<byte>)
    requires k <= |f.items|
    ensures Out(f, k) == pre + MemberOut(f, k)
    decreases k
  {
    hide Decode;
    if k == 0 {
      pre := [];
    } else if f.items[k - 1].Block? {
      pre := MemberIsTail(f, k - 1);
    } else {
      pre := Out(f, k);
    }
  }

  lemma {:induction false} EndsIncrease(f: GzFile, j: nat, k: nat)
    requires WellFormed(f) && j < k <= |f.items|
    ensures f.ends[j] < f.ends[k]
    decreases k
  {
    assert ItemFits(f, k - 1);
    if j < k - 1 {
      EndsIncrease(f, j, k - 1);
    }
  }

  lemma {:induction false} BytesIncrease(f: GzFile, j: nat, k: nat)
    requires WellFormed(f) && j < k <= |f.items|
    ensures Bytes(f.ends[j]) < Bytes(f.ends[k])
    decreases k
  {
    assert ItemFits(f, k - 1);
    if j < k - 1 {
      BytesIncrease(f, j, k - 1);
    }
  }
}
