/** `ByteArrayIncremental`: byte arrays stored as the length of the prefix
    each shares with the one before it (delta encoded as ints) and the
    rest of its bytes (in the delta-length encoding). The output is the
    count, the byte length of the prefix-lengths block, that block, and
    then the delta-length encoding of the suffixes. */
module ByteArrayIncremental {
  import opened Wrappers
  import opened Words
  import opened Bytes
  import opened Seqs
  import opened Encoding
  import PD = PackedDelta
  import PDP = PackedDeltaProperties
  import PDD = PackedDeltaDecoding
  import DL = ByteArrayDeltaLength

  /** The encoder's scan for `firstDifferentByteIdx`, from index `i`: the
      first index where the arrays differ, or the shorter length. */
  function CommonPrefixFrom(a: seq<byte>, b: seq<byte>, i: nat): (n: nat)
    requires i <= |a| && i <= |b| && a[..i] == b[..i]
    ensures i <= n <= |a| && n <= |b| && a[..n] == b[..n]
    ensures n < |a| && n < |b| ==> a[n] != b[n]
    decreases |a| - i
  {
    if i < |a| && i < |b| && a[i] == b[i] then
      PrefixStep(a, b, i);
      CommonPrefixFrom(a, b, i + 1)
    else i
  }

  lemma PrefixStep(a: seq<byte>, b: seq<byte>, i: nat)
    requires i < |a| && i < |b| && a[..i] == b[..i] && a[i] == b[i]
    ensures a[..i + 1] == b[..i + 1]
  {
    assert a[..i + 1] == a[..i] + [a[i]] && b[..i + 1] == b[..i] + [b[i]];
  }

  /** The length of the longest common prefix of two arrays. */
  function CommonPrefix(a: seq<byte>, b: seq<byte>): (n: nat)
    ensures n <= |a| && n <= |b| && a[..n] == b[..n]
    ensures n < |a| && n < |b| ==> a[n] != b[n]
  {
    CommonPrefixFrom(a, b, 0)
  }

  /** The prefix lengths the encoder writes for `vs` after `prev`: each
      value's common prefix with the value before it. */
  function PrefixesAfter(prev: seq<byte>, vs: seq<seq<byte>>): (ps: seq<int>)
    ensures |ps| == |vs|
  {
    seq(|vs|, i requires 0 <= i < |vs| => CommonPrefix(vs[i], Before(prev, vs, i)))
  }

  /** The value before the `i`th: `prev` for the first. */
  function Before(prev: seq<byte>, vs: seq<seq<byte>>, i: nat): seq<byte>
    requires i < |vs|
  {
    if i == 0 then prev else vs[i - 1]
  }

  /** The suffixes the encoder passes on: each value after its prefix. */
  function SuffixesAfter(prev: seq<byte>, vs: seq<seq<byte>>): (ss: seq<seq<byte>>)
    ensures |ss| == |vs|
  {
    var ps := PrefixesAfter(prev, vs);
    seq(|vs|, i requires 0 <= i < |vs| => assert ps[i] == CommonPrefix(vs[i], Before(prev, vs, i)); vs[i][ps[i]..])
  }

  // ---------------------------------------------------------------------
  // Encoder

  /** The encoder: `previousByteArray` (`null` at first), the delta-length
      encoder of the suffixes, the delta encoder of the prefix lengths, and
      `numValues`. */
  datatype Encoder = Encoder(previous: Option<seq<byte>>, arrays: DL.Encoder, prefixLengths: PD.Encoder, numValues: nat)
  {
    predicate Valid() {
      arrays.lengths.Valid(W32) && prefixLengths.Valid(W32)
    }
  }

  const NewEncoder := Encoder(None, DL.NewEncoder, PD.NewEncoder, 0)

  /** `encode`: the common prefix with the previous array (0 for the first),
      the prefix length to its encoder and the rest of the bytes to the
      delta-length encoder; the array becomes the previous one. */
  function Encode(e: Encoder, bs: seq<byte>): (r: Encoder)
    requires e.Valid() && |bs| < TWO_31
    ensures r.Valid() && r.numValues == e.numValues + 1 && r.previous == Some(bs)
    ensures var p := if e.previous.None? then 0 else CommonPrefix(bs, e.previous.value);
      && r.prefixLengths == PD.Encode(e.prefixLengths, p, W32)
      && r.arrays == DL.Encode(e.arrays, bs[p..])
  {
    var firstDifferentByteIdx := if e.previous.None? then 0 else CommonPrefix(bs, e.previous.value);
    Encoder(Some(bs), DL.Encode(e.arrays, bs[firstDifferentByteIdx..]),
            PD.Encode(e.prefixLengths, firstDifferentByteIdx, W32), e.numValues + 1)
  }

  lemma SuffixesAreArrays(prev: seq<byte>, vs: seq<seq<byte>>)
    requires DL.Arrays(vs)
    ensures DL.Arrays(SuffixesAfter(prev, vs)) && PD.AllHold(PrefixesAfter(prev, vs), W32)
  {
  }

  /** The encoder after encoding `vs` from a fresh one: the prefix-lengths
      encoder encoded the common prefixes, the delta-length encoder the
      suffixes, and the last value is the previous one. */
  function EncodeAll(vs: seq<seq<byte>>): (e: Encoder)
    requires DL.Arrays(vs)
    ensures e.Valid() && e.numValues == |vs|
    ensures e.previous == if |vs| == 0 then None else Some(vs[|vs| - 1])
    ensures DL.Arrays(SuffixesAfter([], vs)) && e.arrays == DL.EncodeAll(SuffixesAfter([], vs))
    ensures PD.AllHold(PrefixesAfter([], vs), W32) && e.prefixLengths == PDP.EncodeAll(PrefixesAfter([], vs), W32)
  {
    SuffixesAreArrays([], vs);
    if |vs| == 0 then NewEncoder
    else
      var front := vs[..|vs| - 1];
      AfterFront([], vs);
      Encode(EncodeAll(front), vs[|vs| - 1])
  }

  /** The prefixes and suffixes of all but the last value are the first
      ones of all the values. */
  lemma AfterFront(prev: seq<byte>, vs: seq<seq<byte>>)
    requires |vs| > 0
    ensures PrefixesAfter(prev, vs[..|vs| - 1]) == PrefixesAfter(prev, vs)[..|vs| - 1]
    ensures SuffixesAfter(prev, vs[..|vs| - 1]) == SuffixesAfter(prev, vs)[..|vs| - 1]
  {
    var front := vs[..|vs| - 1];
    forall i | 0 <= i < |front|
      ensures Before(prev, front, i) == Before(prev, vs, i)
    {
    }
    assert PrefixesAfter(prev, front) == PrefixesAfter(prev, vs)[..|vs| - 1];
    assert SuffixesAfter(prev, front) == SuffixesAfter(prev, vs)[..|vs| - 1];
  }

  /** `reset`: forgets the previous array and the count, and resets both
      encoders. */
  function Reset(e: Encoder): (r: Encoder)
    requires e.Valid()
    ensures r.Valid() && r.previous.None? && r.numValues == 0
    ensures r.arrays == DL.Reset(e.arrays) && r.prefixLengths == PD.Reset(e.prefixLengths, W32)
  {
    Encoder(None, DL.Reset(e.arrays), PD.Reset(e.prefixLengths, W32), 0)
  }

  /** `finish`: finishes both encoders. */
  function Finish(e: Encoder): (r: Encoder)
    requires e.Valid()
    ensures r.Valid() && r.previous == e.previous && r.numValues == e.numValues
    ensures r.arrays == DL.Finish(e.arrays) && r.prefixLengths == PD.Finish(e.prefixLengths, W32)
  {
    Encoder(e.previous, DL.Finish(e.arrays), PD.Finish(e.prefixLengths, W32), e.numValues)
  }

  /** The prefix-lengths block. */
  function PrefixBlock(e: Encoder): seq<byte>
    requires e.Valid()
  {
    PD.WriteTo(e.prefixLengths, W32)
  }

  /** `writeTo`: finishes, then writes the count, the prefix-lengths
      block's byte length, that block, and the delta-length encoding of the
      suffixes. */
  function WriteTo(e: Encoder): (r: seq<byte>)
    requires e.Valid()
    ensures r == WriteCount(e.numValues) + WriteCount(|PrefixBlock(e)|) + PrefixBlock(e) + DL.WriteTo(e.arrays)
  {
    var f := Finish(e);
    PDP.FinishIdempotent(e.prefixLengths, W32);
    DL.LengthIsWritten(e.arrays);
    WriteCount(f.numValues) + WriteCount(PD.GetLength(f.prefixLengths, W32)) + PD.WriteTo(f.prefixLengths, W32)
    + DL.WriteTo(f.arrays)
  }

  /** `getLength`: the prefix-lengths block's length and its size, the
      count's size, and the delta-length encoder's length. */
  function GetLength(e: Encoder): nat
    requires e.Valid()
  {
    var l := PD.GetLength(e.prefixLengths, W32);
    |WriteCount(l)| + |WriteCount(e.numValues)| + l + DL.Length(e.arrays)
  }

  /** Once finished, `getLength` is the size of what `writeTo` writes. */
  lemma LengthIsWritten(e: Encoder)
    requires e.Valid()
    ensures GetLength(Finish(e)) == |WriteTo(e)|
    ensures WriteTo(Finish(e)) == WriteTo(e)
  {
    PDP.FinishIdempotent(e.prefixLengths, W32);
    DL.LengthIsWritten(e.arrays);
    DL.LengthIsWritten(DL.Finish(e.arrays));
  }

  // ---------------------------------------------------------------------
  // Decoder

  /** The backing array of the decoder's `MemoryOutputStream`, never
      empty. */
  type Backing = s: seq<byte> | |s| > 0 witness [0]

  /** The decoder: the count, the prefix-lengths decoder, the delta-length
      decoder of the suffixes, and the buffer holding the last value at its
      front. */
  datatype Decoder = Decoder(numValues: int32, prefixLengths: PD.Decoder, arrays: DL.Decoder, buffer: Backing)

  /** The constructor: the count, the prefix-lengths block's byte length, a
      prefix-lengths decoder on what follows, the delta-length decoder after
      the block, and a 128-byte buffer. */
  function NewDecoder(bs: seq<byte>): (r: Outcome<Decoder>)
    ensures r.Success? ==> r.value.buffer == NewBuffer()
  {
    var count :- ReadCount(bs);
    var prefixLengthsNumBytes :- ReadUInt(count.rest);
    var prefixLengths :- PD.NewDecoder(prefixLengthsNumBytes.rest, W32);
    var suffixes :- SliceAhead(prefixLengthsNumBytes.rest, prefixLengthsNumBytes.value);
    var arrays :- DL.NewDecoder(suffixes);
    Success(Decoder(count.value, prefixLengths.1, arrays, NewBuffer()))
  }

  /** `new MemoryOutputStream(128)`. */
  function NewBuffer(): (b: Backing)
    ensures |b| == 128
  {
    seq(128, _ => 0)
  }

  /** `decode`: the next prefix length becomes the buffer's position, the
      next suffix is decoded into the buffer after it, and the value is the
      buffer up to its new position. */
  function Decode(d: Decoder): (r: Outcome<(seq<byte>, Decoder)>)
    ensures r.Success? ==> |r.value.0| <= |r.value.1.buffer| && r.value.0 == r.value.1.buffer[..|r.value.0|]
  {
    var next :- PD.DecodeStep(d.prefixLengths, W32);
    var into :- DL.DecodeInto(d.arrays, d.buffer, next.0);
    var buffer: Backing := into.buffer;
    Success((buffer[..into.position], Decoder(d.numValues, next.1, into.decoder, buffer)))
  }

  function Step(): Decoder -> Outcome<(seq<byte>, Decoder)> {
    d => Decode(d)
  }

  // ---------------------------------------------------------------------
  // Round trip

  /** One `decode`, with the previous value at the front of the buffer,
      gives back the value whose prefix and suffix the decoders yield. */
  lemma DecodeOne(d: Decoder, prev: seq<byte>, x: seq<byte>, pd1: PD.Decoder, ld1: PD.Decoder, rest: seq<byte>)
    requires |prev| <= |d.buffer| && d.buffer[..|prev|] == prev
    requires PD.DecodeStep(d.prefixLengths, W32) == Success((CommonPrefix(x, prev), pd1))
    requires PD.DecodeStep(d.arrays.lengths, W32) == Success((|x| - CommonPrefix(x, prev), ld1))
    requires d.arrays.data == x[CommonPrefix(x, prev)..] + rest
    ensures Decode(d).Success?
    ensures var r := Decode(d).value;
      && r.0 == x && r.1.numValues == d.numValues && r.1.prefixLengths == pd1
      && r.1.arrays == DL.Decoder(d.arrays.numValues, ld1, rest)
      && |x| <= |r.1.buffer| && r.1.buffer[..|x|] == x
  {
    var p := CommonPrefix(x, prev);
    DL.DecodeIntoOne(d.arrays, d.buffer, p, x[p..], ld1, rest);
    var into := DL.DecodeInto(d.arrays, d.buffer, p).value;
    assert DL.Room(d.buffer, p, 0) == d.buffer;
    PrefixOfPrefix(d.buffer, prev, p);
    Joined(into.buffer, x, p);
  }

  lemma PrefixOfPrefix(buffer: seq<byte>, prev: seq<byte>, p: nat)
    requires p <= |prev| <= |buffer| && buffer[..|prev|] == prev
    ensures buffer[..p] == prev[..p]
  {
    assert buffer[..p] == buffer[..|prev|][..p];
  }

  /** A buffer holding a value's prefix and then the rest of it holds the
      value. */
  lemma Joined(buffer: seq<byte>, x: seq<byte>, p: nat)
    requires p <= |x| <= |buffer| && buffer[..p] == x[..p] && buffer[p..|x|] == x[p..]
    ensures buffer[..|x|] == x
  {
    assert buffer[..|x|] == buffer[..p] + buffer[p..|x|];
    assert x == x[..p] + x[p..];
  }

  /** After the first value, the prefixes are those of the rest after the
      first. */
  lemma PrefixesTail(prev: seq<byte>, vs: seq<seq<byte>>)
    requires |vs| > 0
    ensures PrefixesAfter(prev, vs)[1..] == PrefixesAfter(vs[0], vs[1..])
  {
    var ps, ps1 := PrefixesAfter(prev, vs), PrefixesAfter(vs[0], vs[1..]);
    forall i | 0 <= i < |vs| - 1
      ensures ps[1..][i] == ps1[i]
    {
      assert Before(prev, vs, i + 1) == Before(vs[0], vs[1..], i);
    }
  }

  /** After the first value, the suffixes are those of the rest after the
      first. */
  lemma SuffixesTail(prev: seq<byte>, vs: seq<seq<byte>>)
    requires |vs| > 0
    ensures SuffixesAfter(prev, vs)[1..] == SuffixesAfter(vs[0], vs[1..])
  {
    PrefixesTail(prev, vs);
    var ps, ps1 := PrefixesAfter(prev, vs), PrefixesAfter(vs[0], vs[1..]);
    var ss, ss1 := SuffixesAfter(prev, vs), SuffixesAfter(vs[0], vs[1..]);
    forall i | 0 <= i < |vs| - 1
      ensures ss[1..][i] == ss1[i]
    {
      assert ps[i + 1] == ps[1..][i] == ps1[i];
      assert ss[i + 1] == vs[i + 1][ps[i + 1]..];
      assert ss1[i] == vs[1..][i][ps1[i]..];
    }
    assert ss[1..] == ss1;
  }

  /** Decoding the first of the values whose prefixes and suffixes the
      decoders yield gives it back, and leaves decoders that yield the
      rest after it. */
  lemma DecodeValuesHead(d: Decoder, prev: seq<byte>, vs: seq<seq<byte>>, pdEnd: PD.Decoder,
                         ldEnd: PD.Decoder, more: seq<byte>) returns (d1: Decoder)
    requires |vs| > 0
    requires |prev| <= |d.buffer| && d.buffer[..|prev|] == prev
    requires DecodeN(PD.Step(W32), d.prefixLengths, |vs|) == Success((PrefixesAfter(prev, vs), pdEnd))
    requires DecodeN(PD.Step(W32), d.arrays.lengths, |vs|) == Success((DL.Lengths(SuffixesAfter(prev, vs)), ldEnd))
    requires d.arrays.data == Flatten(SuffixesAfter(prev, vs)) + more
    ensures Step()(d) == Success((vs[0], d1))
    ensures && |vs[0]| <= |d1.buffer| && d1.buffer[..|vs[0]|] == vs[0]
      && DecodeN(PD.Step(W32), d1.prefixLengths, |vs| - 1) == Success((PrefixesAfter(vs[0], vs[1..]), pdEnd))
      && DecodeN(PD.Step(W32), d1.arrays.lengths, |vs| - 1)
         == Success((DL.Lengths(SuffixesAfter(vs[0], vs[1..])), ldEnd))
      && d1.arrays.data == Flatten(SuffixesAfter(vs[0], vs[1..])) + more
  {
    var ps, ss := PrefixesAfter(prev, vs), SuffixesAfter(prev, vs);
    DecodeNUncons(PD.Step(W32), d.prefixLengths, |vs|, ps, pdEnd);
    DecodeNUncons(PD.Step(W32), d.arrays.lengths, |vs|, DL.Lengths(ss), ldEnd);
    var pd1 := PD.DecodeStep(d.prefixLengths, W32).value.1;
    var ld1 := PD.DecodeStep(d.arrays.lengths, W32).value.1;
    FlattenCons(ss);
    AppendAssoc(ss[0], Flatten(ss[1..]), more);
    DecodeOne(d, prev, vs[0], pd1, ld1, Flatten(ss[1..]) + more);
    PrefixesTail(prev, vs);
    SuffixesTail(prev, vs);
    DL.LengthsTail(ss);
    d1 := Decode(d).value.1;
  }

  /** Decoding the values whose prefixes and suffixes the decoders yield,
      after `prev`, gives the values back. */
  lemma {:induction false} DecodeValues(d: Decoder, prev: seq<byte>, vs: seq<seq<byte>>, pdEnd: PD.Decoder,
                                        ldEnd: PD.Decoder, more: seq<byte>)
    requires |prev| <= |d.buffer| && d.buffer[..|prev|] == prev
    requires DecodeN(PD.Step(W32), d.prefixLengths, |vs|) == Success((PrefixesAfter(prev, vs), pdEnd))
    requires DecodeN(PD.Step(W32), d.arrays.lengths, |vs|) == Success((DL.Lengths(SuffixesAfter(prev, vs)), ldEnd))
    requires d.arrays.data == Flatten(SuffixesAfter(prev, vs)) + more
    ensures DecodeN(Step(), d, |vs|).Success? && DecodeN(Step(), d, |vs|).value.0 == vs
    decreases |vs|
  {
    if |vs| > 0 {
      var d1 := DecodeValuesHead(d, prev, vs, pdEnd, ldEnd, more);
      var tail := vs[1..];
      assert |tail| == |vs| - 1;
      DecodeValues(d1, vs[0], tail, pdEnd, ldEnd, more);
      DecodeNConsValues(Step(), d, |vs|, vs[0], d1, tail);
      assert [vs[0]] + vs[1..] == vs;
    }
  }

  /** The bytes the encoder writes for `vs`, with `more` after them. */
  lemma WrittenLayout(vs: seq<seq<byte>>, more: seq<byte>)
    requires DL.Arrays(vs)
    ensures var ps := PrefixesAfter([], vs);
      var ss := SuffixesAfter([], vs);
      PD.AllHold(ps, W32) && DL.Arrays(ss)
      && var block := PD.WriteTo(PDP.EncodeAll(ps, W32), W32);
      WriteTo(EncodeAll(vs)) + more
        == WriteCount(|vs|) + (WriteCount(|block|) + (block + (DL.WriteTo(DL.EncodeAll(ss)) + more)))
  {
    SuffixesAreArrays([], vs);
    var block := PD.WriteTo(PDP.EncodeAll(PrefixesAfter([], vs), W32), W32);
    DL.Regroup(WriteCount(|vs|), WriteCount(|block|), block, DL.WriteTo(DL.EncodeAll(SuffixesAfter([], vs))), more);
  }

  /** The sizes a Java `int` must hold for the output to be read back: the
      count and the two lengths blocks. */
  predicate Fits(vs: seq<seq<byte>>)
    requires DL.Arrays(vs)
  {
    SuffixesAreArrays([], vs);
    && |vs| < TWO_31
    && |PD.WriteTo(PDP.EncodeAll(PrefixesAfter([], vs), W32), W32)| < TWO_31
    && |PD.WriteTo(PDP.EncodeAll(DL.Lengths(SuffixesAfter([], vs)), W32), W32)| < TWO_31
  }

  /** A fresh decoder over what the encoder wrote reads the count, and
      its two decoders start at the prefix lengths and the suffixes. */
  lemma Opened(vs: seq<seq<byte>>, more: seq<byte>)
    requires DL.Arrays(vs) && Fits(vs)
    ensures var ps, ss := PrefixesAfter([], vs), SuffixesAfter([], vs);
      && NewDecoder(WriteTo(EncodeAll(vs)) + more).Success?
      && var d := NewDecoder(WriteTo(EncodeAll(vs)) + more).value;
      && d.numValues as int == |vs| && |d.buffer| > 0
      && PDD.DecodesTo(d.prefixLengths, ps, DL.WriteTo(DL.EncodeAll(ss)) + more, W32)
      && PDD.DecodesTo(d.arrays.lengths, DL.Lengths(ss), Flatten(ss) + more, W32)
      && d.arrays.data == Flatten(ss) + more
  {
    var ps, ss := PrefixesAfter([], vs), SuffixesAfter([], vs);
    SuffixesAreArrays([], vs);
    var block := PD.WriteTo(PDP.EncodeAll(ps, W32), W32);
    var tail := DL.WriteTo(DL.EncodeAll(ss)) + more;
    WrittenLayout(vs, more);
    DL.LengthsDecode(ps, tail);
    DL.Opened(ss, more);
    NewDecoderOf(|vs|, block, tail);
    DL.LengthsDecode(DL.Lengths(ss), Flatten(ss) + more);
  }

  /** A fresh decoder over a count, a block's length, the block and a
      tail that the two inner decoders open. */
  lemma NewDecoderOf(count: nat, block: seq<byte>, tail: seq<byte>)
    requires count < TWO_31 && |block| < TWO_31
    requires PD.NewDecoder(block + tail, W32).Success? && DL.NewDecoder(tail).Success?
    ensures NewDecoder(WriteCount(count) + (WriteCount(|block|) + (block + tail)))
      == Success(Decoder(count, PD.NewDecoder(block + tail, W32).value.1, DL.NewDecoder(tail).value, NewBuffer()))
  {
    CountRoundTrip(count, WriteCount(|block|) + (block + tail));
    CountRoundTrip(|block|, block + tail);
    assert SliceAhead(block + tail, |block|) == Success(tail);
  }

  /** A fresh decoder over what the encoder wrote decodes the values in
      order: each is the previous value's prefix followed by its stored
      suffix. */
  lemma RoundTrip(vs: seq<seq<byte>>, more: seq<byte>)
    requires DL.Arrays(vs) && Fits(vs)
    ensures NewDecoder(WriteTo(EncodeAll(vs)) + more).Success?
    ensures var d := NewDecoder(WriteTo(EncodeAll(vs)) + more).value;
      && d.numValues as int == |vs|
      && DecodeN(Step(), d, |vs|).Success?
      && DecodeN(Step(), d, |vs|).value.0 == vs
  {
    Opened(vs, more);
    var d := NewDecoder(WriteTo(EncodeAll(vs)) + more).value;
    var ps, ss := PrefixesAfter([], vs), SuffixesAfter([], vs);
    var pdEnd := DecodeN(PD.Step(W32), d.prefixLengths, |vs|).value.1;
    var ldEnd := DecodeN(PD.Step(W32), d.arrays.lengths, |vs|).value.1;
    DecodeValues(d, [], vs, pdEnd, ldEnd, more);
  }
}
