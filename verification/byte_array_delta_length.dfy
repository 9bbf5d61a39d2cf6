/** `ByteArrayDeltaLength`: byte arrays stored as their lengths, delta
    encoded as ints, followed by all their bytes back to back. The output
    is the count, the byte length of the lengths block, the lengths block
    (an int delta stream) and then the concatenated bytes. */
module ByteArrayDeltaLength {
  import opened Wrappers
  import opened Words
  import opened Bytes
  import opened Seqs
  import opened Encoding
  import PD = PackedDelta
  import PDP = PackedDeltaProperties
  import PDD = PackedDeltaDecoding

  // ---------------------------------------------------------------------
  // Encoder

  /** The encoder: `numValues`, the delta encoder of the lengths and the
      bytes written to `byteArrayBuffer`. */
  datatype Encoder = Encoder(numValues: nat, lengths: PD.Encoder, bytes: seq<byte>)

  const NewEncoder := Encoder(0, PD.NewEncoder, [])

  /** The lengths of the arrays, in order. */
  function Lengths(vs: seq<seq<byte>>): (ls: seq<int>)
    ensures |ls| == |vs| && forall k | 0 <= k < |vs| :: ls[k] == |vs[k]|
  {
    seq(|vs|, k requires 0 <= k < |vs| => |vs[k]|)
  }

  /** The lengths of all but the first array. */
  lemma LengthsTail(vs: seq<seq<byte>>)
    requires |vs| > 0
    ensures Lengths(vs)[1..] == Lengths(vs[1..])
  {
    var a, b := Lengths(vs)[1..], Lengths(vs[1..]);
    assert |a| == |b|;
    forall k | 0 <= k < |a| ensures a[k] == b[k] {
      assert a[k] == Lengths(vs)[k + 1] == |vs[k + 1]|;
    }
  }

  /** Byte arrays a Java `int` can index. */
  predicate Arrays(vs: seq<seq<byte>>) {
    forall k | 0 <= k < |vs| :: |vs[k]| < TWO_31
  }

  lemma LengthsHold(vs: seq<seq<byte>>)
    requires Arrays(vs)
    ensures PD.AllHold(Lengths(vs), W32)
  {
  }

  /** `encode`: one more value, its length to the lengths encoder and its
      bytes to the buffer. */
  function Encode(e: Encoder, bs: seq<byte>): (r: Encoder)
    requires e.lengths.Valid(W32) && |bs| < TWO_31
    ensures r.lengths.Valid(W32)
    ensures r.numValues == e.numValues + 1 && r.bytes == e.bytes + bs
    ensures r.lengths == PD.Encode(e.lengths, |bs|, W32)
  {
    Encoder(e.numValues + 1, PD.Encode(e.lengths, |bs|, W32), e.bytes + bs)
  }

  /** The encoder after encoding `vs` from a fresh one. Its lengths encoder
      is the int delta encoder that encoded the lengths, and its buffer
      holds all the bytes. */
  function EncodeAll(vs: seq<seq<byte>>): (e: Encoder)
    requires Arrays(vs)
    ensures e.lengths.Valid(W32) && e.numValues == |vs|
    ensures PD.AllHold(Lengths(vs), W32) && e.lengths == PDP.EncodeAll(Lengths(vs), W32)
    ensures e.bytes == Flatten(vs)
  {
    LengthsHold(vs);
    if |vs| == 0 then NewEncoder
    else
      var front := vs[..|vs| - 1];
      assert Lengths(front) == Lengths(vs)[..|vs| - 1];
      var e := EncodeAll(front);
      FlattenSnoc(front, vs[|vs| - 1]);
      assert front + [vs[|vs| - 1]] == vs;
      Encode(e, vs[|vs| - 1])
  }

  /** `reset`. */
  function Reset(e: Encoder): (r: Encoder)
    requires e.lengths.Valid(W32)
    ensures r.lengths.Valid(W32)
    ensures r.numValues == 0 && r.bytes == [] && r.lengths == PD.Reset(e.lengths, W32)
  {
    Encoder(0, PD.Reset(e.lengths, W32), [])
  }

  /** `finish`: finishes the lengths encoder. */
  function Finish(e: Encoder): (r: Encoder)
    requires e.lengths.Valid(W32)
    ensures r.lengths.Valid(W32) && r.numValues == e.numValues && r.bytes == e.bytes
    ensures r.lengths == PD.Finish(e.lengths, W32)
  {
    e.(lengths := PD.Finish(e.lengths, W32))
  }

  /** The lengths block: what the lengths encoder writes. */
  function LengthsBlock(e: Encoder): seq<byte>
    requires e.lengths.Valid(W32)
  {
    PD.WriteTo(e.lengths, W32)
  }

  /** `writeTo`: finishes, then writes the count, the byte length of the
      lengths block, the lengths block and the bytes. Both numbers are Java
      `int`s, written as UInts. */
  function WriteTo(e: Encoder): (r: seq<byte>)
    requires e.lengths.Valid(W32)
    ensures r == WriteCount(e.numValues) + WriteCount(|LengthsBlock(e)|) + LengthsBlock(e) + e.bytes
  {
    var f := Finish(e);
    PDP.FinishIdempotent(e.lengths, W32);
    WriteCount(f.numValues) + WriteCount(PD.GetLength(f.lengths, W32)) + PD.WriteTo(f.lengths, W32) + f.bytes
  }

  /** `length`: the count's size, the lengths block's size and its own size,
      and the bytes, using the lengths encoder's current length. */
  function Length(e: Encoder): nat
    requires e.lengths.Valid(W32)
  {
    var l := PD.GetLength(e.lengths, W32);
    |WriteCount(e.numValues)| + |WriteCount(l)| + l + |e.bytes|
  }

  /** Once the lengths encoder is finished, `length` is the size of what
      `writeTo` writes. */
  lemma LengthIsWritten(e: Encoder)
    requires e.lengths.Valid(W32)
    ensures Length(Finish(e)) == |WriteTo(e)|
    ensures WriteTo(Finish(e)) == WriteTo(e)
  {
    PDP.FinishIdempotent(e.lengths, W32);
  }

  // ---------------------------------------------------------------------
  // Decoder

  /** The decoder: the count, the lengths decoder and the bytes after the
      lengths block. */
  datatype Decoder = Decoder(numValues: int32, lengths: PD.Decoder, data: seq<byte>)

  /** The constructor: the count, the lengths block's byte length, a
      lengths decoder on what follows (which reads from its own view) and
      the bytes after skipping the lengths block. */
  function NewDecoder(bs: seq<byte>): (r: Outcome<Decoder>)
    ensures r.Success? ==> |r.value.data| < |bs|
  {
    var count :- ReadCount(bs);
    var lengthsNumBytes :- ReadUInt(count.rest);
    var lengths :- PD.NewDecoder(lengthsNumBytes.rest, W32);
    var data :- SliceAhead(lengthsNumBytes.rest, lengthsNumBytes.value);
    Success(Decoder(count.value, lengths.1, data))
  }

  /** `decode`: the next length, then that many bytes; a negative length
      cannot size an array and too few bytes underflow. */
  function Decode(d: Decoder): (r: Outcome<(seq<byte>, Decoder)>)
    ensures r.Success? ==> d.data == r.value.0 + r.value.1.data
  {
    var next :- PD.DecodeStep(d.lengths, W32);
    var length := next.0;
    if length < 0 then Failure(NegativeArraySize)
    else if |d.data| < length then Failure(BufferUnderflow)
    else
      SplitAt(d.data, length);
      Success((d.data[..length], Decoder(d.numValues, next.1, d.data[length..])))
  }

  function Step(): Decoder -> Outcome<(seq<byte>, Decoder)> {
    d => Decode(d)
  }

  /** The backing array of a `MemoryOutputStream` after
      `ensureRemainingCapacity(capacity)` at `position`: doubled, zeros
      after the old bytes, until `capacity` bytes fit after `position`. */
  function Room(buffer: seq<byte>, position: int, capacity: int): (r: seq<byte>)
    requires |buffer| > 0
    ensures |r| >= |buffer| && r[..|buffer|] == buffer && |r| - position >= capacity
    decreases if |buffer| - position >= capacity then 0 else position + capacity - |buffer|
  {
    if |buffer| - position >= capacity then buffer
    else
      var grown := buffer + seq(|buffer|, _ => 0);
      var r := Room(grown, position, capacity);
      assert r[..|grown|][..|buffer|] == r[..|buffer|];
      r
  }

  /** A stream's backing array and position after `decodeInto`. */
  datatype Into = Into(buffer: seq<byte>, position: int, decoder: Decoder)

  /** `decodeInto(mos)`: the next length, room for it in the stream, then
      that many bytes copied in at the stream's position. A negative length
      or position is out of the array's bounds. */
  function DecodeInto(d: Decoder, buffer: seq<byte>, position: int): (r: Outcome<Into>)
    requires |buffer| > 0
    ensures r.Success? ==> 0 <= position <= r.value.position <= |r.value.buffer|
    ensures r.Success? ==> |r.value.buffer| >= |buffer|
    ensures r.Success? ==> r.value.buffer[..position] == Room(buffer, position, 0)[..position]
    ensures r.Success? ==>
      d.data == r.value.buffer[position..r.value.position] + r.value.decoder.data
  {
    var next :- PD.DecodeStep(d.lengths, W32);
    var length := next.0;
    var room := Room(buffer, position, length);
    if position < 0 || length < 0 then Failure(IndexOutOfBounds)
    else if |d.data| < length then Failure(BufferUnderflow)
    else
      var written := room[..position] + d.data[..length] + room[position + length..];
      assert written[position..position + length] == d.data[..length];
      assert written[..position] == room[..position];
      RoomPrefix(buffer, position, length);
      SplitAt(d.data, length);
      Success(Into(written, position + length, Decoder(d.numValues, next.1, d.data[length..])))
  }

  /** Growing keeps the bytes before any position the same. */
  lemma RoomPrefix(buffer: seq<byte>, position: nat, capacity: int)
    requires |buffer| > 0 && position <= |Room(buffer, position, capacity)|
    ensures position <= |Room(buffer, position, 0)|
    ensures Room(buffer, position, capacity)[..position] == Room(buffer, position, 0)[..position]
    decreases if |buffer| - position >= capacity then 0 else position + capacity - |buffer|
  {
    if |buffer| - position < capacity {
      var grown := buffer + seq(|buffer|, _ => 0);
      if |buffer| - position >= 0 {
        assert Room(buffer, position, 0) == buffer;
        assert Room(grown, position, capacity)[..|buffer|] == buffer;
      } else {
        RoomPrefix(grown, position, capacity);
      }
    }
  }

  // ---------------------------------------------------------------------
  // Round trip

  /** The lengths block, followed by anything, decodes to the lengths and
      leaves the rest unread. */
  lemma LengthsDecode(ls: seq<int>, more: seq<byte>)
    requires PD.AllHold(ls, W32) && |ls| < TWO_31
    ensures PD.NewDecoder(PD.WriteTo(PDP.EncodeAll(ls, W32), W32) + more, W32).Success?
    ensures var d := PD.NewDecoder(PD.WriteTo(PDP.EncodeAll(ls, W32), W32) + more, W32).value;
      d.0 == |ls| && PDD.DecodesTo(d.1, ls, more, W32)
  {
    PDP.EncodeAllHolds(ls, W32);
    PDP.WrittenDecodes(PDP.EncodeAll(ls, W32), ls, more, W32);
  }

  /** One `decode` whose length the lengths decoder yields. */
  lemma DecodeOne(d: Decoder, x: seq<byte>, l1: PD.Decoder, rest: seq<byte>)
    requires PD.DecodeStep(d.lengths, W32) == Success((|x|, l1)) && d.data == x + rest
    ensures Decode(d) == Success((x, Decoder(d.numValues, l1, rest)))
  {
    assert d.data[..|x|] == x && d.data[|x|..] == rest;
  }

  /** One `decodeInto` whose length the lengths decoder yields, at a
      position in the stream: the bytes land after the position, which moves
      past them. */
  lemma DecodeIntoOne(d: Decoder, buffer: seq<byte>, position: nat, x: seq<byte>, l1: PD.Decoder, rest: seq<byte>)
    requires |buffer| > 0
    requires PD.DecodeStep(d.lengths, W32) == Success((|x|, l1)) && d.data == x + rest
    ensures DecodeInto(d, buffer, position).Success?
    ensures var r := DecodeInto(d, buffer, position).value;
      && r.position == position + |x| && r.decoder == Decoder(d.numValues, l1, rest)
      && r.buffer[position..position + |x|] == x
      && r.buffer[..position] == Room(buffer, position, 0)[..position]
  {
    assert d.data[..|x|] == x && d.data[|x|..] == rest;
  }

  /** Decoding `n` values whose lengths the lengths decoder yields and
      whose bytes come next gives the values back. */
  lemma {:induction false} DecodeValues(d: Decoder, vs: seq<seq<byte>>, ld: PD.Decoder, more: seq<byte>)
    requires DecodeN(PD.Step(W32), d.lengths, |vs|) == Success((Lengths(vs), ld))
    requires d.data == Flatten(vs) + more
    ensures DecodeN(Step(), d, |vs|) == Success((vs, Decoder(d.numValues, ld, more)))
    decreases |vs|
  {
    if |vs| > 0 {
      DecodeNUncons(PD.Step(W32), d.lengths, |vs|, Lengths(vs), ld);
      var l1 := PD.DecodeStep(d.lengths, W32).value.1;
      assert Lengths(vs)[1..] == Lengths(vs[1..]);
      FlattenCons(vs);
      AppendAssoc(vs[0], Flatten(vs[1..]), more);
      var d1 := Decoder(d.numValues, l1, Flatten(vs[1..]) + more);
      DecodeOne(d, vs[0], l1, Flatten(vs[1..]) + more);
      DecodeValues(d1, vs[1..], ld, more);
      DecodeNCons(Step(), d, |vs|, vs[0], d1, vs[1..], Decoder(d.numValues, ld, more));
      assert [vs[0]] + vs[1..] == vs;
    } else {
      assert Flatten(vs) + more == more;
    }
  }

  /** What the encoder writes: the count, the lengths block's length and
      the lengths block, then the bytes of the values back to back. */
  lemma WrittenLayout(vs: seq<seq<byte>>, more: seq<byte>)
    requires Arrays(vs)
    ensures var block := PD.WriteTo(PDP.EncodeAll(Lengths(vs), W32), W32);
      WriteTo(EncodeAll(vs)) + more == WriteCount(|vs|) + (WriteCount(|block|) + (block + (Flatten(vs) + more)))
  {
    var block := PD.WriteTo(PDP.EncodeAll(Lengths(vs), W32), W32);
    Regroup(WriteCount(|vs|), WriteCount(|block|), block, Flatten(vs), more);
  }

  lemma Regroup(a: seq<byte>, b: seq<byte>, c: seq<byte>, d: seq<byte>, e: seq<byte>)
    ensures (a + b + c + d) + e == a + (b + (c + (d + e)))
  {
  }

  /** A fresh decoder over what the encoder wrote reads the count, and
      its lengths decoder starts at the lengths block and its bytes after
      it. */
  lemma Opened(vs: seq<seq<byte>>, more: seq<byte>)
    requires Arrays(vs) && |vs| < TWO_31
    requires |PD.WriteTo(PDP.EncodeAll(Lengths(vs), W32), W32)| < TWO_31
    ensures var block := PD.WriteTo(PDP.EncodeAll(Lengths(vs), W32), W32);
      var tail := Flatten(vs) + more;
      && PD.NewDecoder(block + tail, W32).Success?
      && NewDecoder(WriteTo(EncodeAll(vs)) + more)
         == Success(Decoder(|vs|, PD.NewDecoder(block + tail, W32).value.1, tail))
  {
    var ls := Lengths(vs);
    LengthsHold(vs);
    var block := PD.WriteTo(PDP.EncodeAll(ls, W32), W32);
    var tail := Flatten(vs) + more;
    WrittenLayout(vs, more);
    CountRoundTrip(|vs|, WriteCount(|block|) + (block + tail));
    CountRoundTrip(|block|, block + tail);
    LengthsDecode(ls, tail);
    assert SliceAhead(block + tail, |block|) == Success(tail);
  }

  /** A fresh decoder over what the encoder wrote, followed by anything,
      reads the count and decodes the values in order, leaving what
      follows. The count and the lengths block must fit a Java `int`. */
  lemma RoundTrip(vs: seq<seq<byte>>, more: seq<byte>)
    requires Arrays(vs) && |vs| < TWO_31
    requires |PD.WriteTo(PDP.EncodeAll(Lengths(vs), W32), W32)| < TWO_31
    ensures NewDecoder(WriteTo(EncodeAll(vs)) + more).Success?
    ensures var d := NewDecoder(WriteTo(EncodeAll(vs)) + more).value;
      && d.numValues as int == |vs|
      && DecodeN(Step(), d, |vs|).Success?
      && DecodeN(Step(), d, |vs|).value.0 == vs
      && DecodeN(Step(), d, |vs|).value.1.data == more
  {
    var ls := Lengths(vs);
    LengthsHold(vs);
    var block := PD.WriteTo(PDP.EncodeAll(ls, W32), W32);
    var tail := Flatten(vs) + more;
    Opened(vs, more);
    LengthsDecode(ls, tail);
    var d := NewDecoder(WriteTo(EncodeAll(vs)) + more).value;
    var end := DecodeN(PD.Step(W32), d.lengths, |ls|).value.1;
    DecodeValues(d, vs, end, more);
  }
}
