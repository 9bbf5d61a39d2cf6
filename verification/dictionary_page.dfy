/** `DictionaryPage`: a page holding a column's dictionary. Its header is
    three UInts (the value count and the compressed and uncompressed data
    lengths); its body is the (possibly compressed) data. */
module DictionaryPages {
  import opened Wrappers
  import opened Words
  import opened Bytes
  import Seqs
  import opened Encoding

  datatype Header = Header(numValues: int32, compressedDataLength: int32, uncompressedDataLength: int32)

  /** `writeTo`: the three fields as UInts. */
  function WriteHeader(h: Header): seq<byte> {
    WriteUInt(h.numValues) + WriteUInt(h.compressedDataLength) + WriteUInt(h.uncompressedDataLength)
  }

  /** `read`: three UInts, in the same order. */
  function ReadHeader(bs: seq<byte>): (r: Outcome<Parsed<Header>>)
    ensures r.Success? ==> |r.value.rest| < |bs|
  {
    var n :- ReadUInt(bs);
    var compressed :- ReadUInt(n.rest);
    var uncompressed :- ReadUInt(compressed.rest);
    Success(Parsed(Header(n.value, compressed.value, uncompressed.value), uncompressed.rest))
  }

  /** Reading a written header gives it back and leaves what follows. */
  lemma HeaderRoundTrip(h: Header, rest: seq<byte>)
    ensures ReadHeader(WriteHeader(h) + rest) == Success(Parsed(h, rest))
  {
    var a, b, c := WriteUInt(h.numValues), WriteUInt(h.compressedDataLength), WriteUInt(h.uncompressedDataLength);
    assert WriteHeader(h) == a + b + c;
    Seqs.AppendAssoc(a + b, c, rest);
    Seqs.AppendAssoc(a, b, c + rest);
    UIntRoundTrip(h.numValues, b + (c + rest));
    UIntRoundTrip(h.compressedDataLength, c + rest);
    UIntRoundTrip(h.uncompressedDataLength, rest);
  }

  /** `headerLength`: the sum of the fields' UInt sizes, which is the size
      of what `writeTo` writes. */
  function HeaderLength(h: Header): (n: nat)
    ensures n == |WriteHeader(h)|
    ensures 3 <= n <= 15
  {
    UIntRoundTrip(h.numValues, []);
    UIntRoundTrip(h.compressedDataLength, []);
    UIntRoundTrip(h.uncompressedDataLength, []);
    NumVarintBytes(h.numValues, W32) + NumVarintBytes(h.compressedDataLength, W32)
    + NumVarintBytes(h.uncompressedDataLength, W32)
  }

  /** `bodyLength`: the compressed data; the data starts at offset 0. */
  function BodyLength(h: Header): (n: int32)
    ensures n == h.compressedDataLength
  {
    h.compressedDataLength
  }

  /** A written page: the header, then the data. */
  lemma PageRoundTrip(h: Header, data: seq<byte>, rest: seq<byte>)
    requires |data| == h.compressedDataLength as int
    ensures ReadHeader(WriteHeader(h) + data + rest) == Success(Parsed(h, data + rest))
    ensures SliceAhead(data + rest, BodyLength(h)) == Success(rest)
  {
    assert WriteHeader(h) + data + rest == WriteHeader(h) + (data + rest);
    HeaderRoundTrip(h, data + rest);
    assert (data + rest)[|data|..] == rest;
  }

  // ---------------------------------------------------------------------
  // Writer

  /** The writer, over an encoder state `E` and a compressor state `C`:
      the encoder, the compressor if there is one, and `isFinished`. */
  datatype Writer<E, C> = Writer(encoder: E, compressor: Option<C>, isFinished: bool)

  /** `header`: the encoder's value count and length, with the compressed
      length the compressor's if there is one and the encoder's otherwise. */
  function WriterHeader<E, C>(w: Writer<E, C>, numValues: int32, length: int32, compressedLength: C -> int32)
    : (h: Header)
    ensures h.numValues == numValues && h.uncompressedDataLength == length
    ensures w.compressor.None? ==> h.compressedDataLength == h.uncompressedDataLength
    ensures w.compressor.Some? ==> h.compressedDataLength == compressedLength(w.compressor.value)
  {
    Header(numValues, if w.compressor.Some? then compressedLength(w.compressor.value) else length, length)
  }

  /** `finish`: finishes the encoder and compresses its output once, then
      does nothing until `reset`. */
  function Finish<E, C>(w: Writer<E, C>, finishEncoder: E -> E, compress: (C, E) -> C): (r: Writer<E, C>)
    ensures r.isFinished
    ensures w.isFinished ==> r == w
    ensures !w.isFinished ==> r.encoder == finishEncoder(w.encoder)
    ensures r.compressor.Some? <==> w.compressor.Some?
  {
    if w.isFinished then w
    else
      var e := finishEncoder(w.encoder);
      Writer(e, if w.compressor.Some? then Some(compress(w.compressor.value, e)) else None, true)
  }

  /** `reset`: resets the encoder and the compressor and clears the flag. */
  function Reset<E, C>(w: Writer<E, C>, resetEncoder: E -> E, resetCompressor: C -> C): (r: Writer<E, C>)
    ensures !r.isFinished && r.encoder == resetEncoder(w.encoder)
    ensures r.compressor.Some? <==> w.compressor.Some?
  {
    Writer(resetEncoder(w.encoder), if w.compressor.Some? then Some(resetCompressor(w.compressor.value)) else None,
           false)
  }

  /** A second `finish` leaves the writer as the first left it, so the
      encoder is finished and compressed once; after `reset`, `finish`
      finishes it again. */
  lemma FinishIdempotent<E, C>(w: Writer<E, C>, finishEncoder: E -> E, compress: (C, E) -> C,
                               resetEncoder: E -> E, resetCompressor: C -> C)
    ensures Finish(Finish(w, finishEncoder, compress), finishEncoder, compress) == Finish(w, finishEncoder, compress)
    ensures var w1 := Reset(Finish(w, finishEncoder, compress), resetEncoder, resetCompressor);
      Finish(w1, finishEncoder, compress).encoder == finishEncoder(w1.encoder)
  {
  }

  // ---------------------------------------------------------------------
  // Reader

  /** `Reader.read`: the decoder's value count, then that many `decode`
      calls. */
  function Read<D, T>(step: D -> Outcome<(T, D)>, d: D, numEncodedValues: nat): (r: Outcome<seq<T>>)
    ensures r.Success? ==> |r.value| == numEncodedValues
    ensures r.Success? <==> DecodeN(step, d, numEncodedValues).Success?
  {
    var (vs, _) :- DecodeN(step, d, numEncodedValues);
    Success(vs)
  }
}
