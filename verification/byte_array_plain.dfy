/** dendrite's `ByteArrayPlain` encoding: each byte array as its length (a
    fixed 4-byte int) followed by its bytes. */
module ByteArrayPlain {
  import opened Wrappers
  import opened Words
  import opened Bytes
  import opened Encoding
  import opened Seqs

  /** A Java byte array: its length is an `int`. */
  predicate IsArray(bs: seq<byte>) {
    |bs| < TWO_31
  }

  /** The bytes one array is written as. */
  function ValueBytes(bs: seq<byte>): (r: seq<byte>)
    requires IsArray(bs)
    ensures |r| == 4 + |bs| && r[4..] == bs
  {
    WriteFixed(|bs|, W32) + bs
  }

  /** `encode`: one more value; the body only grows. */
  function Encode(f: Frame, bs: seq<byte>): (r: Frame)
    requires IsArray(bs)
    ensures r.numValues == f.numValues + 1
    ensures |r.body| == |f.body| + 4 + |bs| && r.body[..|f.body|] == f.body
  {
    Append(f, ValueBytes(bs))
  }

  /** The encoder after encoding `vs` from a fresh one. */
  function EncodeAll(vs: seq<seq<byte>>): (f: Frame)
    requires forall k | 0 <= k < |vs| :: IsArray(vs[k])
    ensures f.numValues == |vs|
  {
    if |vs| == 0 then EmptyFrame else Encode(EncodeAll(vs[..|vs| - 1]), vs[|vs| - 1])
  }

  /** The constructor: the count, then the values. */
  function NewDecoder(bs: seq<byte>): Outcome<(int32, seq<byte>)> {
    var count :- ReadCount(bs);
    Success((count.value, count.rest))
  }

  /** `decode`: the fixed length, then that many bytes. A negative length
      fails as the array allocation does; too few bytes fail as the buffer
      read does. */
  function Decode(rest: seq<byte>): (r: Outcome<(seq<byte>, seq<byte>)>)
    ensures r.Failure? ==> r.error == BufferUnderflow || r.error == NegativeArraySize
    ensures r.Success? ==> |r.value.1| + 4 + |r.value.0| == |rest| && r.value.1 == rest[4 + |r.value.0|..]
  {
    var len :- ReadFixed(rest, W32);
    if len.value < 0 then Failure(NegativeArraySize)
    else if |len.rest| < len.value then Failure(BufferUnderflow)
    else Success((len.rest[..len.value], len.rest[len.value..]))
  }

  /** One array reads back as written, and the reader stops right after
      it. */
  lemma DecodeValue(bs: seq<byte>, rest: seq<byte>)
    requires IsArray(bs)
    ensures Decode(ValueBytes(bs) + rest) == Success((bs, rest))
  {
    FixedRoundTrip(|bs|, W32, bs + rest);
    AppendAssoc(WriteFixed(|bs|, W32), bs, rest);
    TakeOfAppend(bs, rest, |bs|);
    DropOfAppend(bs, rest, |bs|);
    assert bs[..|bs|] == bs && bs[|bs|..] == [];
  }

  lemma {:induction false} DecodeValues(vs: seq<seq<byte>>, rest: seq<byte>)
    requires forall k | 0 <= k < |vs| :: IsArray(vs[k])
    ensures DecodeN(Decode, EncodeAll(vs).body + rest, |vs|) == Success((vs, rest))
  {
    if |vs| > 0 {
      var front, last := vs[..|vs| - 1], vs[|vs| - 1];
      var tail := ValueBytes(last) + rest;
      DecodeValues(front, tail);
      AppendAssoc(EncodeAll(front).body, ValueBytes(last), rest);
      DecodeNext(EncodeAll(front).body + tail, front, tail, last, rest);
      SplitLast(vs);
    } else {
      assert vs == [] && EncodeAll(vs).body == [];
      assert EncodeAll(vs).body + rest == rest;
    }
  }

  lemma DecodeNext(d: seq<byte>, xs: seq<seq<byte>>, tail: seq<byte>, x: seq<byte>, rest: seq<byte>)
    requires IsArray(x) && tail == ValueBytes(x) + rest
    requires DecodeN(Decode, d, |xs|) == Success((xs, tail))
    ensures DecodeN(Decode, d, |xs| + 1) == Success((xs + [x], rest))
  {
    DecodeValue(x, rest);
    DecodeNSnoc(Decode, d, |xs|, xs, tail, x, rest);
  }

  /** Decoding what was encoded: the count comes back, then the arrays in
      order, and nothing is left over. */
  lemma RoundTrip(vs: seq<seq<byte>>)
    requires |vs| < TWO_31
    requires forall k | 0 <= k < |vs| :: IsArray(vs[k])
    ensures NewDecoder(WriteFrame(EncodeAll(vs))) == Success((|vs| as int32, EncodeAll(vs).body))
    ensures DecodeN(Decode, EncodeAll(vs).body, |vs|) == Success((vs, []))
  {
    CountRoundTrip(|vs|, EncodeAll(vs).body);
    DecodeValues(vs, []);
    assert EncodeAll(vs).body + [] == EncodeAll(vs).body;
  }
}
