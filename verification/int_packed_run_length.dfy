/** dendrite's `IntPackedRunLength` encoding: ints whose bit width is not
    known in advance. The encoder buffers the values as UInts and tracks
    the largest bit width seen; `finish` replays them through the hybrid
    encoder at that width. The output is the width as one byte, then the
    hybrid stream. */
module IntPackedRunLength {
  import opened Wrappers
  import opened Words
  import opened Bytes
  import opened Encoding
  import H = IntFixedBitWidthPackedRunLength
  import RleDecoding
  import RleProperties
  import opened BitStreams

  // ---------------------------------------------------------------------
  // The value buffer

  /** The values written one after another with `writeUInt`. */
  function UInts(vs: seq<int32>): (r: seq<byte>)
    ensures |vs| <= |r|
  {
    if |vs| == 0 then [] else WriteUInt(vs[0]) + UInts(vs[1..])
  }

  /** `n` successive `readUInt` calls. */
  function ReadUInts(bs: seq<byte>, n: nat): (r: Outcome<Parsed<seq<int32>>>)
    ensures r.Success? ==> |r.value.value| == n && |r.value.rest| <= |bs|
  {
    if n == 0 then Success(Parsed([], bs))
    else
      var first :- ReadUInt(bs);
      var more :- ReadUInts(first.rest, n - 1);
      Success(Parsed([first.value] + more.value, more.rest))
  }

  lemma {:induction false} ReadUIntsOfUInts(vs: seq<int32>, rest: seq<byte>)
    ensures ReadUInts(UInts(vs) + rest, |vs|) == Success(Parsed(vs, rest))
  {
    if |vs| == 0 {
      assert UInts(vs) + rest == rest;
    } else {
      ReadUIntsOfUInts(vs[1..], rest);
      ReadUIntsCons(vs[0], vs[1..], rest);
      assert [vs[0]] + vs[1..] == vs;
    }
  }

  /** The inductive step: one UInt in front of values that read back. */
  lemma ReadUIntsCons(i: int32, more: seq<int32>, rest: seq<byte>)
    requires ReadUInts(UInts(more) + rest, |more|) == Success(Parsed(more, rest))
    ensures ReadUInts(UInts([i] + more) + rest, |more| + 1) == Success(Parsed([i] + more, rest))
  {
    var tail := UInts(more) + rest;
    UIntRoundTrip(i, tail);
    ReadUIntsStep(i, tail, |more| + 1, more, rest);
    UIntsCons(i, more, rest);
  }

  lemma UIntsCons(i: int32, more: seq<int32>, rest: seq<byte>)
    ensures UInts([i] + more) + rest == WriteUInt(i) + (UInts(more) + rest)
  {
    assert ([i] + more)[1..] == more;
    Seqs.AppendAssoc(WriteUInt(i), UInts(more), rest);
  }

  lemma ReadUIntsStep(i: int32, tail: seq<byte>, n: nat, vs: seq<int32>, rest: seq<byte>)
    requires n > 0 && ReadUInt(WriteUInt(i) + tail) == Success(Parsed(i, tail))
    requires ReadUInts(tail, n - 1) == Success(Parsed(vs, rest))
    ensures ReadUInts(WriteUInt(i) + tail, n) == Success(Parsed([i] + vs, rest))
  {
  }

  lemma {:induction false} UIntsSnoc(vs: seq<int32>, i: int32)
    ensures UInts(vs + [i]) == UInts(vs) + WriteUInt(i)
  {
    if |vs| == 0 {
      assert vs + [i] == [i];
      assert UInts([i]) == WriteUInt(i) + UInts([]);
    } else {
      assert (vs + [i])[1..] == vs[1..] + [i];
      UIntsSnoc(vs[1..], i);
      Seqs.AppendAssoc(WriteUInt(vs[0]), UInts(vs[1..]), WriteUInt(i));
    }
  }

  /** The largest bit width among `vs`, and 0 for none. */
  function MaxBitWidth(vs: seq<int32>): (r: H.Width)
    ensures forall k | 0 <= k < |vs| :: GetBitWidth(vs[k], W32) <= r
    ensures |vs| == 0 ==> r == 0
    ensures |vs| > 0 ==> exists k | 0 <= k < |vs| :: GetBitWidth(vs[k], W32) == r
  {
    if |vs| == 0 then 0
    else
      var m := MaxBitWidth(vs[..|vs| - 1]);
      var w := GetBitWidth(vs[|vs| - 1], W32);
      assert forall k | 0 <= k < |vs| - 1 :: vs[k] == vs[..|vs| - 1][k];
      if w > m then w else m
  }

  /** Every value fits the largest bit width among them. */
  lemma FitsMaxBitWidth(vs: seq<int32>)
    ensures forall k | 0 <= k < |vs| :: Fits(vs[k], MaxBitWidth(vs), W32)
  {
    forall k | 0 <= k < |vs|
      ensures Fits(vs[k], MaxBitWidth(vs), W32)
    {
      FitsWider(vs[k], GetBitWidth(vs[k], W32), MaxBitWidth(vs));
    }
  }

  lemma FitsWider(i: int32, width: nat, wider: H.Width)
    requires width <= wider && width == GetBitWidth(i, W32)
    ensures Fits(i, wider, W32)
  {
    FitsBitWidth(i, W32);
    if i >= 0 {
      Pow2Monotone(width, wider);
    }
  }

  // ---------------------------------------------------------------------
  // Encoder

  /** The encoder: the frame's place is taken by the UInt buffer and its
      count; `rle` is the hybrid encoder, which receives the values only
      when `finish` runs. */
  datatype Encoder = Encoder(
    intBuffer: seq<byte>,
    numBufferedValues: nat,
    maxWidth: H.Width,
    isFinished: bool,
    rle: H.Encoder)
  {
    /** The hybrid encoder stays as `reset` left it until `finish`, and is
        finished afterwards. */
    predicate Valid() {
      && rle.Valid()
      && (!isFinished ==> rle == H.NewEncoder(rle.width))
      && (isFinished ==> H.Finish(rle) == rle)
    }
  }

  /** `new Encoder()`: the hybrid encoder starts at width 0. */
  const NewEncoder := Encoder([], 0, 0, false, H.NewEncoder(0))

  /** `encode`: buffers the value as a UInt and raises the width to its bit
      width when that is larger. */
  function Encode(e: Encoder, i: int32): (r: Encoder)
    requires e.Valid()
    ensures r.Valid() && r.isFinished == e.isFinished && r.rle == e.rle
    ensures r.numBufferedValues == e.numBufferedValues + 1
    ensures r.maxWidth >= e.maxWidth && r.maxWidth >= GetBitWidth(i, W32)
    ensures r.maxWidth == e.maxWidth || r.maxWidth == GetBitWidth(i, W32)
    ensures |r.intBuffer| > |e.intBuffer| && r.intBuffer[..|e.intBuffer|] == e.intBuffer
  {
    var width := GetBitWidth(i, W32);
    e.(intBuffer := e.intBuffer + WriteUInt(i),
       numBufferedValues := e.numBufferedValues + 1,
       maxWidth := if width > e.maxWidth then width else e.maxWidth)
  }

  /** The encoder after encoding `vs` from a new one. */
  function EncodeAll(vs: seq<int32>): (e: Encoder)
    ensures e.Valid() && e.numBufferedValues == |vs| && !e.isFinished
  {
    if |vs| == 0 then NewEncoder else Encode(EncodeAll(vs[..|vs| - 1]), vs[|vs| - 1])
  }

  /** `reset`: forgets the values, the width and the finished flag, and
      resets the hybrid encoder. */
  function Reset(e: Encoder): (r: Encoder)
    ensures r.Valid() && r.intBuffer == [] && r.numBufferedValues == 0
    ensures r.maxWidth == 0 && !r.isFinished
  {
    Encoder([], 0, 0, false, H.Reset(e.rle))
  }

  /** `setWidth` on the hybrid encoder. */
  function SetWidth(rle: H.Encoder, width: H.Width): (r: H.Encoder)
    ensures rle.Valid() ==> r.Valid()
    ensures r.width == width && r.frame == rle.frame
  {
    rle.(width := width)
  }

  /** The hybrid encoder after `encode` of each of `vs` in turn. */
  function EncodeEach(rle: H.Encoder, vs: seq<int32>): (r: H.Encoder)
    requires rle.Valid()
    ensures r.Valid() && r.width == rle.width && r.frame.numValues == rle.frame.numValues + |vs|
  {
    if |vs| == 0 then rle else H.Encode(EncodeEach(rle, vs[..|vs| - 1]), vs[|vs| - 1])
  }

  /** `finish`, once: reads the buffered values back, encodes them at the
      largest width and finishes the hybrid encoder. A second call does
      nothing. A buffer too short for the count would throw, but no
      sequence of calls produces one. */
  function Finish(e: Encoder): (r: Outcome<Encoder>)
    requires e.Valid()
    ensures r.Success? ==> r.value.Valid() && r.value.isFinished
    ensures r.Success? ==> r.value.numBufferedValues == e.numBufferedValues && r.value.maxWidth == e.maxWidth
    ensures e.isFinished ==> r == Success(e)
  {
    if e.isFinished then Success(e)
    else
      var values :- ReadUInts(e.intBuffer, e.numBufferedValues);
      var rle := EncodeEach(SetWidth(e.rle, e.maxWidth), values.value);
      RleProperties.FinishIdempotent(rle);
      Success(e.(rle := H.Finish(rle), isFinished := true))
  }

  /** `writeTo`: finishes, then writes the width byte and the hybrid
      encoder's output. */
  function WriteTo(e: Encoder): (r: Outcome<seq<byte>>)
    requires e.Valid()
    ensures r.Success? ==> |r.value| > 1 && r.value[0] == e.maxWidth
  {
    var f :- Finish(e);
    Success([f.maxWidth as byte] + H.WriteTo(f.rle))
  }

  /** `getLength`: the width byte and what the hybrid encoder holds. */
  function GetLength(e: Encoder): (n: nat)
    ensures n == 1 + H.GetLength(e.rle)
  {
    1 + H.GetLength(e.rle)
  }

  /** `getEstimatedLength`: one bit-packed run of `numBufferedValues / 8 + 1`
      octuplets, its header, the width byte and the count, in Java `int`
      arithmetic. */
  function GetEstimatedLength(e: Encoder): (n: int32)
  {
    var octuplets := e.numBufferedValues / 8 + 1;
    var header := ToSigned(2 * octuplets, W32);
    var count := ToSigned(e.numBufferedValues, W32);
    ToSigned(1 + NumVarintBytes(header, W32) + octuplets * e.maxWidth + NumVarintBytes(count, W32), W32)
  }

  // ---------------------------------------------------------------------
  // Decoder

  /** `new Decoder(byteBuffer)`: the width byte, then a hybrid decoder over
      the rest. The encoder never writes a width above 32; the model refuses
      one instead of reading with it. */
  function NewDecoder(bs: seq<byte>): (r: Outcome<(int32, H.Decoder)>)
    ensures |bs| == 0 ==> r == Failure(BufferUnderflow)
    ensures r.Success? ==> r.value.1.width == bs[0]
  {
    if |bs| == 0 then Failure(BufferUnderflow)
    else if bs[0] > 32 then Failure(IllegalArgument("bit width above 32"))
    else
      var r :- H.NewDecoder(bs[1..], bs[0]);
      Success(r)
  }

  /** `decode` / `decodeInt`: delegated to the hybrid decoder. */
  function Decode(d: H.Decoder): (r: Outcome<(int32, H.Decoder)>)
    ensures r.Success? ==> r.value.1.width == d.width
  {
    H.Decode(d)
  }

  // ---------------------------------------------------------------------
  // Properties

  /** What an unfinished encoder holds after receiving `vs`. */
  predicate Holds(e: Encoder, vs: seq<int32>) {
    && e.Valid() && !e.isFinished
    && e.intBuffer == UInts(vs) && e.numBufferedValues == |vs|
    && e.maxWidth == MaxBitWidth(vs)
  }

  lemma {:induction false} EncodeAllHolds(vs: seq<int32>)
    ensures Holds(EncodeAll(vs), vs)
  {
    if |vs| > 0 {
      var front, last := vs[..|vs| - 1], vs[|vs| - 1];
      EncodeAllHolds(front);
      EncodeTracksWidth(EncodeAll(front), front, last);
      assert front + [last] == vs;
    }
  }

  /** `encode` keeps the width at the maximum bit width of the values seen. */
  lemma EncodeTracksWidth(e: Encoder, vs: seq<int32>, i: int32)
    requires Holds(e, vs)
    ensures Holds(Encode(e, i), vs + [i])
  {
    UIntsSnoc(vs, i);
    assert (vs + [i])[..|vs|] == vs;
  }

  lemma {:induction false} EncodeEachAll(width: H.Width, vs: seq<int32>)
    ensures EncodeEach(H.NewEncoder(width), vs) == H.EncodeAll(width, vs)
  {
    if |vs| > 0 {
      EncodeEachAll(width, vs[..|vs| - 1]);
    }
  }

  /** `finish` encodes the buffered values at the largest bit width among
      them and finishes the hybrid encoder. */
  lemma FinishEncodes(vs: seq<int32>)
    ensures Finish(EncodeAll(vs)).Success?
    ensures Finish(EncodeAll(vs)).value.rle == H.Finish(H.EncodeAll(MaxBitWidth(vs), vs))
  {
    var e := EncodeAll(vs);
    EncodeAllHolds(vs);
    ReadUIntsOfUInts(vs, []);
    assert UInts(vs) + [] == UInts(vs);
    assert SetWidth(e.rle, e.maxWidth) == H.NewEncoder(MaxBitWidth(vs));
    EncodeEachAll(MaxBitWidth(vs), vs);
  }

  /** A second `finish` changes nothing. */
  lemma FinishIdempotent(e: Encoder)
    requires e.Valid() && Finish(e).Success?
    ensures Finish(Finish(e).value) == Finish(e)
  {
  }

  /** What `writeTo` writes after encoding `vs`: the largest bit width, then
      the hybrid stream of `vs` at that width. */
  lemma WrittenStream(vs: seq<int32>)
    ensures WriteTo(EncodeAll(vs)).Success?
    ensures var bs := WriteTo(EncodeAll(vs)).value;
      bs[0] == MaxBitWidth(vs) && bs[1..] == H.WriteTo(H.EncodeAll(MaxBitWidth(vs), vs))
  {
    FinishEncodes(vs);
    EncodeAllHolds(vs);
  }

  /** The decoder over the written stream is the hybrid decoder over the
      hybrid stream, at the largest bit width. */
  lemma DecoderOverStream(vs: seq<int32>)
    ensures WriteTo(EncodeAll(vs)).Success?
    ensures NewDecoder(WriteTo(EncodeAll(vs)).value)
         == H.NewDecoder(H.WriteTo(H.EncodeAll(MaxBitWidth(vs), vs)), MaxBitWidth(vs))
  {
    WrittenStream(vs);
  }

  /** Decoding what was encoded: the count and the ints come back in order. */
  lemma RoundTrip(vs: seq<int32>)
    requires |vs| < TWO_31
    ensures WriteTo(EncodeAll(vs)).Success?
    ensures var r := NewDecoder(WriteTo(EncodeAll(vs)).value);
      && r.Success? && r.value.0 == |vs| as int32
      && DecodeN(Decode, r.value.1, |vs|).Success?
      && DecodeN(Decode, r.value.1, |vs|).value.0 == vs
  {
    var width := MaxBitWidth(vs);
    DecoderOverStream(vs);
    FitsMaxBitWidth(vs);
    RleDecoding.RoundTrip(width, vs);
    var r := H.NewDecoder(H.WriteTo(H.EncodeAll(width, vs)), width);
    DecodeNSameSteps(r.value.1, |vs|);
  }

  /** `Decode` is the hybrid decoder's step, so `n` calls agree. */
  lemma {:induction false} DecodeNSameSteps(d: H.Decoder, n: nat)
    ensures DecodeN(Decode, d, n) == DecodeN(H.Decode, d, n)
    decreases n
  {
    if n > 0 {
      match H.Decode(d)
      case Success(first) =>
        DecodeNSameSteps(first.1, n - 1);
      case Failure(_) =>
    }
  }

  /** Once finished, `getLength` is the size of what `writeTo` writes. */
  lemma LengthAfterFinish(e: Encoder)
    requires e.Valid() && Finish(e).Success?
    ensures WriteTo(e).Success? && GetLength(Finish(e).value) == |WriteTo(e).value|
  {
    var f := Finish(e).value;
    assert H.Finish(f.rle) == f.rle;
  }

  /** A reset encoder writes the width 0 and a zero count. */
  lemma ResetWritesNothing(e: Encoder)
    requires e.Valid()
    ensures WriteTo(Reset(e)) == Success([0, 0])
    ensures GetLength(Reset(e)) == 2
  {
    var r := Reset(e);
    var blank := H.NewEncoder(0);
    assert ReadUInts(r.intBuffer, 0) == Success(Parsed([], []));
    assert SetWidth(r.rle, 0) == blank;
    assert Finish(r) == Success(r.(rle := H.Finish(blank), isFinished := true));
    RleProperties.FinishIdempotent(blank);
    RleProperties.ResetWritesNothing(blank);
    assert H.Reset(blank) == blank;
    assert H.WriteTo(H.Finish(blank)) == [0];
    RleProperties.ResetWritesNothing(e.rle);
    var f := Finish(r).value;
    assert f.maxWidth == 0 && H.WriteTo(f.rle) == [0];
    assert WriteTo(r) == Success([0 as byte] + [0]);
    assert [0 as byte] + [0] == [0, 0];
  }

  /** Without overflow the estimate covers the width byte, the count, a
      header byte and the values packed at the largest width. */
  lemma EstimateCoversValues(e: Encoder)
    requires e.numBufferedValues < 0x400_0000
    ensures GetEstimatedLength(e) >= 2 + |WriteCount(e.numBufferedValues)| + BytesFor(e.numBufferedValues * e.maxWidth)
  {
    var n, w := e.numBufferedValues, e.maxWidth;
    var octuplets: nat := n / 8 + 1;
    EstimateValue(e);
    EstimateTerms(n, w, octuplets);
    PackedBound(n, w, octuplets);
    assert |WriteCount(n)| == NumVarintBytes(n, W32);
  }

  /** Below 2^26 values no `int` in the estimate overflows. */
  lemma EstimateValue(e: Encoder)
    requires e.numBufferedValues < 0x400_0000
    ensures var octuplets := e.numBufferedValues / 8 + 1;
      GetEstimatedLength(e) == 1 + NumVarintBytes(2 * octuplets, W32) + octuplets * e.maxWidth
                               + NumVarintBytes(e.numBufferedValues, W32)
  {
    var n, w := e.numBufferedValues, e.maxWidth;
    var octuplets: nat := n / 8 + 1;
    EstimateTerms(n, w, octuplets);
    var packed: nat := octuplets * w;
    var a, b := NumVarintBytes(2 * octuplets, W32), NumVarintBytes(n, W32);
    assert ToSigned(2 * octuplets, W32) == 2 * octuplets;
    assert ToSigned(n, W32) == n;
    assert 1 + a + packed + b < TWO_31;
    assert ToSigned(1 + a + packed + b, W32) == 1 + a + packed + b;
  }

  lemma EstimateTerms(n: nat, w: H.Width, octuplets: nat)
    requires n < 0x400_0000 && octuplets == n / 8 + 1
    ensures 8 * octuplets > n && octuplets <= 0x80_0000 && octuplets * w <= 0x1000_0000
  {
    MulMonotone(w, 32, octuplets);
  }

  lemma PackedBound(n: nat, w: nat, octuplets: nat)
    requires 8 * octuplets > n
    ensures BytesFor(n * w) <= octuplets * w
  {
    assert n * w <= 8 * octuplets * w by {
      Words.MulAtLeast(w, 1);
      assert n * w <= (8 * octuplets) * w by {
        MulMonotone(n, 8 * octuplets, w);
      }
    }
    DivModUnique(8 * octuplets * w, 8, octuplets * w, 0);
  }

  lemma MulMonotone(a: nat, b: nat, c: nat)
    requires a <= b
    ensures a * c <= b * c && c * a <= c * b
  {
  }
}
