/** dendrite's `IntFixedBitWidthPackedRunLength` encoding: ints of one
    fixed bit width, written as a sequence of runs. Each run opens with a
    UInt header whose low bit tells its kind: `count << 1` starts a run of
    `count` repeats of one value, which follows packed in `width` bits;
    `count << 1 | 1` starts `count` octuplets of values, each octuplet packed
    `width` bits per value. */
module IntFixedBitWidthPackedRunLength {
  import opened Wrappers
  import opened Words
  import opened Bytes
  import opened Encoding
  import opened Seqs
  import opened BitStreams

  /** A bit width the 32-bit packing routines accept. */
  type Width = w: nat | w <= 32

  /** `computeRLEThreshold`: the run length from which a run of repeats is
      cheaper run-length encoded than packed. The Java computes
      `(int)((2 + width / 8) * (8.0 / width)) + 1` in floating point; for
      widths 1 to 32 that is the integer quotient below. For width 0 the
      quotient is infinite, the cast saturates to `Integer.MAX_VALUE` and the
      `+ 1` wraps to `Integer.MIN_VALUE`. */
  function RleThreshold(width: Width): (t: int32)
    ensures width == 0 ==> t == -0x8000_0000
    ensures width > 0 ==> (t - 1) * width <= 8 * (2 + width / 8) < t * width
  {
    if width == 0 then -0x8000_0000
    else
      var q := 8 * (2 + width / 8) / width;
      DivModUnique(8 * (2 + width / 8), width, q, 8 * (2 + width / 8) % width);
      q + 1
  }

  /** A run header as the Java int `count << 1` (with `| 1` for a
      bit-packed run). */
  function RunHeader(count: nat, packed: bool): (h: int32)
    ensures count < TWO_31 ==> ToUnsigned(h, W32) == 2 * count + (if packed then 1 else 0)
  {
    var u := 2 * count + (if packed then 1 else 0);
    UnsignedSigned(u % TWO_32, W32);
    ToSigned(u % TWO_32, W32)
  }

  /** `count` copies of `v`. */
  function Repeat(v: int32, count: nat): (r: seq<int32>)
    ensures |r| == count && forall k | 0 <= k < count :: r[k] == v
  {
    if count == 0 then [] else Repeat(v, count - 1) + [v]
  }

  // ---------------------------------------------------------------------
  // Encoder

  /** The encoder: the frame (count and written runs), the run of repeats
      being counted, the values of the octuplet being filled, the packed
      octuplets waiting for their header, and the width. The Java keeps the
      octuplet in an 8-slot array whose slots past the position are stale;
      only the filled slots are ever written, so the model keeps those. */
  datatype Encoder = Encoder(
    frame: Frame,
    rleValue: int32,
    numOccurrences: nat,
    pending: seq<int32>,
    buffer: seq<byte>,
    numBufferedOctuplets: nat,
    width: Width)
  {
    /** The octuplet is never full, the encoder is never filling an
        octuplet while counting a run, and the buffer is empty when no
        octuplet is buffered. */
    predicate Valid() {
      && |pending| < 8
      && (|pending| > 0 ==> numOccurrences == 0)
      && (numBufferedOctuplets == 0 ==> buffer == [])
    }
  }

  /** `new Encoder(width)`, and the state `reset` returns to. */
  function NewEncoder(width: Width): (e: Encoder)
    ensures e.Valid() && e.frame == EmptyFrame
  {
    Encoder(EmptyFrame, 0, 0, [], [], 0, width)
  }

  /** `bufferPackedInt`: adds `i` to the octuplet; a full octuplet is packed
      onto the buffer. */
  function BufferPackedInt(e: Encoder, i: int32): (r: Encoder)
    requires |e.pending| < 8
    ensures |r.pending| < 8
    ensures 8 * r.numBufferedOctuplets + |r.pending| == 8 * e.numBufferedOctuplets + |e.pending| + 1
    ensures r.frame == e.frame && r.width == e.width && r.numOccurrences == e.numOccurrences
    ensures r.rleValue == e.rleValue
    ensures r.numBufferedOctuplets >= e.numBufferedOctuplets
    ensures r.numBufferedOctuplets == e.numBufferedOctuplets ==> r.buffer == e.buffer
  {
    var octuplet := e.pending + [i];
    if |octuplet| == 8 then
      e.(pending := [], buffer := e.buffer + WritePackedInts(octuplet, e.width, W32),
         numBufferedOctuplets := e.numBufferedOctuplets + 1)
    else
      e.(pending := octuplet)
  }

  /** `count` calls of `bufferPackedInt(v)`. */
  function BufferRepeats(e: Encoder, v: int32, count: nat): (r: Encoder)
    requires |e.pending| < 8
    ensures |r.pending| < 8
    ensures 8 * r.numBufferedOctuplets + |r.pending| == 8 * e.numBufferedOctuplets + |e.pending| + count
    ensures r.frame == e.frame && r.width == e.width && r.numOccurrences == e.numOccurrences
    ensures r.rleValue == e.rleValue
    ensures r.numBufferedOctuplets >= e.numBufferedOctuplets
    ensures r.numBufferedOctuplets == e.numBufferedOctuplets ==> r.buffer == e.buffer
  {
    if count == 0 then e else BufferPackedInt(BufferRepeats(e, v, count - 1), v)
  }

  /** `packRLERun`: the counted repeats become packed values. */
  function PackRleRun(e: Encoder): (r: Encoder)
    requires |e.pending| < 8
    ensures r.numOccurrences == 0 && |r.pending| < 8
    ensures 8 * r.numBufferedOctuplets + |r.pending| == 8 * e.numBufferedOctuplets + |e.pending| + e.numOccurrences
    ensures r.frame == e.frame && r.width == e.width
    ensures r.numBufferedOctuplets >= e.numBufferedOctuplets
    ensures r.numBufferedOctuplets == e.numBufferedOctuplets ==> r.buffer == e.buffer
  {
    BufferRepeats(e.(numOccurrences := 0), e.rleValue, e.numOccurrences)
  }

  /** `flushBitPacked`: the header of the buffered octuplets, then the
      octuplets themselves. */
  function FlushBitPacked(e: Encoder): (r: Encoder)
    ensures r.frame.numValues == e.frame.numValues
    ensures r.frame.body == e.frame.body + WriteUInt(RunHeader(e.numBufferedOctuplets, true)) + e.buffer
    ensures r.buffer == [] && r.numBufferedOctuplets == 0
    ensures r.pending == e.pending && r.numOccurrences == e.numOccurrences && r.width == e.width
    ensures r.rleValue == e.rleValue
  {
    e.(frame := Extend(e.frame, WriteUInt(RunHeader(e.numBufferedOctuplets, true)) + e.buffer),
       buffer := [], numBufferedOctuplets := 0)
  }

  /** `flushRLE`: buffered octuplets go first, then the run header and the
      repeated value packed in `width` bits. */
  function FlushRle(e: Encoder): (r: Encoder)
    ensures r.frame.numValues == e.frame.numValues
    ensures var packed := if e.numBufferedOctuplets > 0 then FlushBitPacked(e).frame.body else e.frame.body;
      r.frame.body == packed + (WriteUInt(RunHeader(e.numOccurrences, false)) + WritePackedInt(e.rleValue, e.width))
    ensures r.numOccurrences == 0 && r.buffer == [] && r.numBufferedOctuplets == 0
    ensures r.pending == e.pending && r.width == e.width
  {
    var e1 := if e.numBufferedOctuplets > 0 then FlushBitPacked(e) else e;
    e1.(frame := Extend(e1.frame, WriteUInt(RunHeader(e.numOccurrences, false)) + WritePackedInt(e.rleValue, e.width)),
        numOccurrences := 0, buffer := [], numBufferedOctuplets := 0)
  }

  /** `encodeInt`: a value continues the run of repeats or starts one; when
      it breaks a run, the run is flushed as a run-length run if it reached
      the threshold and packed otherwise. A value arriving while an octuplet
      is being filled joins the octuplet. */
  function EncodeInt(e: Encoder, i: int32): (r: Encoder)
    requires e.Valid()
    ensures r.Valid() && r.width == e.width && r.frame.numValues == e.frame.numValues
    decreases e.numOccurrences
  {
    if |e.pending| == 0 then
      if e.numOccurrences == 0 then e.(numOccurrences := 1, rleValue := i)
      else if e.rleValue == i then e.(numOccurrences := e.numOccurrences + 1)
      else if e.numOccurrences >= RleThreshold(e.width) then EncodeInt(FlushRle(e), i)
      else EncodeInt(PackRleRun(e), i)
    else
      BufferPackedInt(e, i)
  }

  /** `encode`: one more value. */
  function Encode(e: Encoder, i: int32): (r: Encoder)
    requires e.Valid()
    ensures r.Valid() && r.width == e.width && r.frame.numValues == e.frame.numValues + 1
  {
    EncodeInt(e.(frame := e.frame.(numValues := e.frame.numValues + 1)), i)
  }

  /** The encoder after encoding `vs` from a fresh one. */
  function EncodeAll(width: Width, vs: seq<int32>): (e: Encoder)
    ensures e.Valid() && e.width == width && e.frame.numValues == |vs|
  {
    if |vs| == 0 then NewEncoder(width) else Encode(EncodeAll(width, vs[..|vs| - 1]), vs[|vs| - 1])
  }

  /** The partial octuplet filled up with zeros. */
  function Padded(e: Encoder): (octuplet: seq<int32>)
    requires 0 < |e.pending| < 8
    ensures |octuplet| == 8 && octuplet[..|e.pending|] == e.pending
    ensures forall k | |e.pending| <= k < 8 :: octuplet[k] == 0
  {
    e.pending + Repeat(0, 8 - |e.pending|)
  }

  /** The first half of `finish` with a partial octuplet: the octuplet,
      padded, is packed onto the buffer. */
  function PadOctuplet(e: Encoder): (r: Encoder)
    requires 0 < |e.pending| < 8
    ensures r.pending == [] && r.numBufferedOctuplets == e.numBufferedOctuplets + 1
    ensures r.buffer == e.buffer + WritePackedInts(Padded(e), e.width, W32)
    ensures r.frame == e.frame && r.width == e.width && r.numOccurrences == e.numOccurrences
  {
    e.(pending := [], buffer := e.buffer + WritePackedInts(Padded(e), e.width, W32),
       numBufferedOctuplets := e.numBufferedOctuplets + 1)
  }

  /** `finish`: a partial octuplet is padded with zeros and flushed with the
      buffered ones; otherwise a counted run, or else the buffered
      octuplets, are flushed. */
  function Finish(e: Encoder): (r: Encoder)
    requires e.Valid()
    ensures r.Valid() && r.width == e.width && r.frame.numValues == e.frame.numValues
    ensures r.pending == [] && r.numOccurrences == 0 && r.numBufferedOctuplets == 0 && r.buffer == []
  {
    if |e.pending| > 0 then FlushBitPacked(PadOctuplet(e))
    else if e.numOccurrences > 0 then FlushRle(e)
    else if e.numBufferedOctuplets > 0 then FlushBitPacked(e)
    else e
  }

  /** `reset`: nothing counted, buffered or written; the width stays. */
  function Reset(e: Encoder): (r: Encoder)
    ensures r.Valid() && r.width == e.width && r.frame == EmptyFrame
    ensures r.pending == [] && r.numOccurrences == 0 && r.numBufferedOctuplets == 0 && r.buffer == []
  {
    NewEncoder(e.width)
  }

  /** `writeTo`: finishes, then writes the count and the body. */
  function WriteTo(e: Encoder): (r: seq<byte>)
    requires e.Valid()
  {
    WriteFrame(Finish(e).frame)
  }

  /** `getLength`: the count and the runs written so far; values still
      counted or buffered are not included. */
  function GetLength(e: Encoder): (n: nat)
    ensures n == |WriteFrame(e.frame)|
  {
    FrameLength(e.frame)
  }

  /** The run-length branch of `estimatedLength`: the size of the value
      as a UInt plus the bit width of the run header. */
  function RleEstimate(e: Encoder): (n: nat)
    ensures n >= 1
  {
    NumVarintBytes(e.rleValue, W32) + GetBitWidth(RunHeader(e.numOccurrences, false), W32)
  }

  /** The buffered octuplets in the bit-packed branch: the size of
      `numBufferedOctuplets << 1` as a UInt plus `8 * width` for each. */
  function PackedEstimate(e: Encoder): (n: nat)
    ensures n >= 1
  {
    var perOctuplet: nat := 8 * e.width;
    NumVarintBytes(RunHeader(e.numBufferedOctuplets, false), W32) + perOctuplet * e.numBufferedOctuplets
  }

  /** `estimatedLength` as written: in the bit-packed branch Java's `?:`
      binds looser than `+` and `>`, so the whole sum is compared with 0
      and the result is `8 * width` or 0. */
  function EstimatedLengthAsWritten(e: Encoder): (n: int)
    ensures e.numOccurrences == 0 ==> n == 8 * e.width
  {
    if e.numOccurrences > 0 then GetLength(e) + RleEstimate(e)
    else if GetLength(e) + PackedEstimate(e) + |e.pending| > 0 then 8 * e.width
    else 0
  }

  /** `estimatedLength` as evidently intended: the conditional term only
      adds the size of the partial octuplet. */
  function EstimatedLength(e: Encoder): (n: int) {
    if e.numOccurrences > 0 then GetLength(e) + RleEstimate(e)
    else GetLength(e) + PackedEstimate(e) + (if |e.pending| > 0 then 8 * e.width else 0)
  }

  // ---------------------------------------------------------------------
  // Decoder

  /** Eight values of `width` bits take `width` bytes. */
  lemma OctupletBytes(width: nat)
    ensures BytesFor(8 * width) == width
  {
    DivModUnique(8 * width + 7, 8, width, 7);
  }

  /** The decoder's 8-slot octuplet array. */
  type Octuplet = s: seq<int32> | |s| == 8 witness [0, 0, 0, 0, 0, 0, 0, 0]

  /** The decoder: the unread buffer, the width, the current octuplet and
      the position in it (8 when it is used up), the octuplets still to
      read in the current bit-packed run, and the current run of repeats. */
  datatype Decoder = Decoder(
    rest: seq<byte>,
    width: Width,
    octuplet: Octuplet,
    position: nat,
    numOctupletsToRead: int,
    rleValue: int32,
    numRleValuesToRead: nat)

  /** `new Decoder(byteBuffer, width)`: the count, then an empty decoder. */
  function NewDecoder(bs: seq<byte>, width: Width): (r: Outcome<(int32, Decoder)>)
    ensures r.Success? ==> r.value.1.position == 8 && r.value.1.numRleValuesToRead == 0
  {
    var count :- ReadCount(bs);
    Success((count.value, Decoder(count.rest, width, [0, 0, 0, 0, 0, 0, 0, 0], 8, 0, 0, 0)))
  }

  /** Eight values read by `readPackedInts32` as the octuplet array. */
  function ToOctuplet(vs: seq<int>): (r: Octuplet)
    requires |vs| == 8 && forall k | 0 <= k < 8 :: W32.Holds(vs[k])
    ensures forall k | 0 <= k < 8 :: r[k] == vs[k]
  {
    var r := seq<int32>(8, k requires 0 <= k < 8 => assert W32.Holds(vs[k]); vs[k] as int32);
    r
  }

  /** `readPackedInts32` of one octuplet: `width` bytes. */
  function ReadOctuplet(bs: seq<byte>, width: Width): (r: Outcome<Parsed<Octuplet>>)
    ensures r.Failure? <==> |bs| < width
    ensures r.Success? ==> r.value.rest == bs[width..]
  {
    OctupletBytes(width);
    var p :- ReadPackedInts(bs, width, 8, W32);
    Success(Parsed(ToOctuplet(p.value), p.rest))
  }

  /** `bufferNextOctuplet`: reads the next packed octuplet. */
  function BufferNextOctuplet(d: Decoder): (r: Outcome<Decoder>)
    ensures r.Failure? <==> |d.rest| < d.width
    ensures r.Success? ==> r.value.rest == d.rest[d.width..] && r.value.position == 0
    ensures r.Success? ==> r.value.numOctupletsToRead == d.numOctupletsToRead - 1
    ensures r.Success? ==> r.value.width == d.width && r.value.numRleValuesToRead == d.numRleValuesToRead
  {
    var p :- ReadOctuplet(d.rest, d.width);
    Success(d.(rest := p.rest, octuplet := p.value, numOctupletsToRead := d.numOctupletsToRead - 1, position := 0))
  }

  /** `bufferNextRLERun`: the repeated value, to be returned `count`
      times. */
  function BufferNextRleRun(d: Decoder, count: nat): (r: Outcome<Decoder>)
    ensures r.Success? ==> |r.value.rest| <= |d.rest| && r.value.width == d.width
  {
    var v :- ReadPackedInt(d.rest, d.width);
    Success(d.(rest := v.rest, numRleValuesToRead := count, rleValue := v.value))
  }

  /** `bufferNextPackedIntRun`: `numOctuplets` octuplets, the first of
      which is read. */
  function BufferNextPackedIntRun(d: Decoder, numOctuplets: nat): (r: Outcome<Decoder>)
    ensures r.Success? ==> |r.value.rest| <= |d.rest| && r.value.width == d.width
  {
    BufferNextOctuplet(d.(numOctupletsToRead := numOctuplets))
  }

  /** `bufferNextRun`: reads a run header `n`; an odd one starts `n >>> 1`
      octuplets, an even one `n >>> 1` repeats. */
  function BufferNextRun(d: Decoder): (r: Outcome<Decoder>)
    ensures r.Success? ==> |r.value.rest| < |d.rest| && r.value.width == d.width
  {
    var h :- ReadUInt(d.rest);
    var n := ToUnsigned(h.value, W32);
    if n % 2 == 1 then BufferNextPackedIntRun(d.(rest := h.rest), n / 2)
    else BufferNextRleRun(d.(rest := h.rest), n / 2)
  }

  /** `decodeFromOctuplet`: the value at the position; when that uses up
      the octuplet and the run has more, the next one is read. */
  function DecodeFromOctuplet(d: Decoder): (r: Outcome<(int32, Decoder)>)
    requires d.position < 8
    ensures r.Success? ==> r.value.0 == d.octuplet[d.position] && r.value.1.width == d.width
    ensures r.Success? ==> |r.value.1.rest| <= |d.rest|
    ensures d.position < 7 || d.numOctupletsToRead <= 0 ==> r == Success((d.octuplet[d.position], d.(position := d.position + 1)))
  {
    var v := d.octuplet[d.position];
    var d1 := d.(position := d.position + 1);
    if d1.position == 8 && d1.numOctupletsToRead > 0 then
      var d2 :- BufferNextOctuplet(d1);
      Success((v, d2))
    else
      Success((v, d1))
  }

  /** `decode`: the next repeat of the current run (`decodeFromRLEValue`),
      else the next value of the octuplet, else a new run is read first. */
  function Decode(d: Decoder): (r: Outcome<(int32, Decoder)>)
    ensures r.Success? ==> |r.value.1.rest| <= |d.rest| && r.value.1.width == d.width
    ensures d.numRleValuesToRead > 0 ==> r == Success((d.rleValue, d.(numRleValuesToRead := d.numRleValuesToRead - 1)))
    ensures d.numRleValuesToRead == 0 && d.position < 8 ==> r == DecodeFromOctuplet(d)
    decreases |d.rest|
  {
    if d.numRleValuesToRead > 0 then
      Success((d.rleValue, d.(numRleValuesToRead := d.numRleValuesToRead - 1)))
    else if d.position < 8 then
      DecodeFromOctuplet(d)
    else
      var d1 :- BufferNextRun(d);
      Decode(d1)
  }
}
