/** dendrite's `FixedLengthByteArrayPlain` encoding: byte arrays that all
    have one length, written once as a UInt before the first array; the
    arrays follow back to back. */
module FixedLengthByteArrayPlain {
  import opened Wrappers
  import opened Words
  import opened Bytes
  import opened Encoding
  import opened Seqs

  /** A Java byte array: its length is an `int`. */
  predicate IsArray(bs: seq<byte>) {
    |bs| < TWO_31
  }

  const DIFFERENT_LENGTHS := "Different byte-array lengths in FixedLengthByteArrayEncoder"

  /** The encoder: the frame and the common length, -1 before the first
      value. */
  datatype Encoder = Encoder(frame: Frame, length: int)

  const NewEncoder := Encoder(EmptyFrame, -1)

  /** `encode`: the first array fixes the length and writes it; a later
      array of another length is refused. */
  function Encode(e: Encoder, bs: seq<byte>): (r: Outcome<Encoder>)
    requires IsArray(bs)
    ensures r.Success? <==> e.length == -1 || e.length == |bs|
    ensures r.Failure? ==> r.error == IllegalState(DIFFERENT_LENGTHS)
    ensures r.Success? ==> r.value.length == |bs| && r.value.frame.numValues == e.frame.numValues + 1
    ensures r.Success? ==> |r.value.frame.body| >= |e.frame.body| && r.value.frame.body[..|e.frame.body|] == e.frame.body
  {
    if e.length != |bs| then
      if e.length == -1 then Success(Encoder(Append(e.frame, WriteUInt(|bs|) + bs), |bs|))
      else Failure(IllegalState(DIFFERENT_LENGTHS))
    else Success(Encoder(Append(e.frame, bs), e.length))
  }

  /** `reset`: no values and no length. */
  function Reset(e: Encoder): (r: Encoder)
    ensures r.frame == EmptyFrame && r.length == -1
  {
    NewEncoder
  }

  /** The encoder after encoding `vs` from a fresh one, or the first
      exception. */
  function EncodeAll(vs: seq<seq<byte>>): (r: Outcome<Encoder>)
    requires forall k | 0 <= k < |vs| :: IsArray(vs[k])
  {
    if |vs| == 0 then Success(NewEncoder)
    else
      var e :- EncodeAll(vs[..|vs| - 1]);
      Encode(e, vs[|vs| - 1])
  }

  /** All arrays have the length of the first. */
  predicate SameLength(vs: seq<seq<byte>>) {
    forall k | 0 <= k < |vs| :: |vs[k]| == |vs[0]|
  }

  /** The arrays back to back. */
  function Flatten(vs: seq<seq<byte>>): (r: seq<byte>)
    ensures SameLength(vs) && |vs| > 0 ==> |r| == |vs| * |vs[0]|
  {
    if |vs| == 0 then [] else Flatten(vs[..|vs| - 1]) + vs[|vs| - 1]
  }

  /** How an encoder holds `vs`: nothing at all before the first value;
      afterwards the common length as a UInt, then the arrays. */
  predicate Represents(e: Encoder, vs: seq<seq<byte>>) {
    && e.frame.numValues == |vs|
    && (|vs| == 0 ==> e.length == -1 && e.frame.body == [])
    && (|vs| > 0 ==> e.length == |vs[0]| < TWO_31 && e.frame.body == WriteUInt(|vs[0]|) + Flatten(vs))
  }

  lemma EncodeFirst(e: Encoder, bs: seq<byte>)
    requires IsArray(bs) && Represents(e, [])
    ensures Encode(e, bs).Success? && Represents(Encode(e, bs).value, [bs])
  {
    assert Flatten([bs]) == Flatten([]) + bs;
    assert [bs][0] == bs;
  }

  lemma EncodeNext(e: Encoder, vs: seq<seq<byte>>, bs: seq<byte>)
    requires IsArray(bs) && |vs| > 0 && Represents(e, vs) && |bs| == |vs[0]|
    ensures Encode(e, bs).Success? && Represents(Encode(e, bs).value, vs + [bs])
  {
    var ws := vs + [bs];
    assert ws[..|ws| - 1] == vs;
    assert Flatten(ws) == Flatten(vs) + bs;
    AppendAssoc(WriteUInt(|vs[0]|), Flatten(vs), bs);
  }

  /** Encoding succeeds exactly when all arrays have one length, and the
      encoder then holds them as `Represents` says. */
  lemma {:induction false} EncodeAllRepresents(vs: seq<seq<byte>>)
    requires forall k | 0 <= k < |vs| :: IsArray(vs[k])
    ensures EncodeAll(vs).Success? <==> SameLength(vs)
    ensures EncodeAll(vs).Success? ==> Represents(EncodeAll(vs).value, vs)
  {
    if |vs| > 0 {
      var front, last := vs[..|vs| - 1], vs[|vs| - 1];
      EncodeAllRepresents(front);
      if |front| == 0 {
        EncodeFirst(NewEncoder, last);
        assert vs == [last];
      } else if SameLength(front) {
        var e := EncodeAll(front).value;
        assert front[0] == vs[0];
        if |last| == |vs[0]| {
          EncodeNext(e, front, last);
          SplitLast(vs);
        } else {
          assert !SameLength(vs);
        }
      } else {
        var k :| 0 <= k < |front| && |front[k]| != |front[0]|;
        assert vs[k] == front[k] && vs[0] == front[0];
      }
    }
  }

  // ---------------------------------------------------------------------
  // Decoder

  /** The decoder: the common length and the unread buffer. */
  datatype Decoder = Decoder(length: int32, rest: seq<byte>)

  /** The constructor as written: the count, then the length, which it
      reads whether or not there is any value. */
  function NewDecoderAsWritten(bs: seq<byte>): (r: Outcome<(int32, Decoder)>) {
    var count :- ReadCount(bs);
    var length :- ReadUInt(count.rest);
    Success((count.value, Decoder(length.value, length.rest)))
  }

  /** The constructor as intended: the length is read only when there is a
      value, since only then was it written. */
  function NewDecoder(bs: seq<byte>): (r: Outcome<(int32, Decoder)>)
    ensures r.Success? && r.value.0 <= 0 ==> r.value.1 == Decoder(0, r.value.1.rest)
    ensures r.Success? ==> |r.value.1.rest| < |bs|
  {
    var count :- ReadCount(bs);
    if count.value <= 0 then Success((count.value, Decoder(0, count.rest)))
    else
      var length :- ReadUInt(count.rest);
      Success((count.value, Decoder(length.value, length.rest)))
  }

  /** `decode`: the next `length` bytes. */
  function Decode(d: Decoder): (r: Outcome<(seq<byte>, Decoder)>)
    ensures r.Failure? <==> d.length < 0 || |d.rest| < d.length
    ensures r.Success? ==> |r.value.0| == d.length && r.value.0 + r.value.1.rest == d.rest
    ensures r.Success? ==> r.value.1.length == d.length
  {
    if d.length < 0 then Failure(NegativeArraySize)
    else if |d.rest| < d.length then Failure(BufferUnderflow)
    else Success((d.rest[..d.length], d.(rest := d.rest[d.length..])))
  }

  lemma DecodeNext(d: Decoder, xs: seq<seq<byte>>, tail: seq<byte>, x: seq<byte>, rest: seq<byte>)
    requires |x| == d.length && tail == x + rest
    requires DecodeN(Decode, d, |xs|) == Success((xs, Decoder(d.length, tail)))
    ensures DecodeN(Decode, d, |xs| + 1) == Success((xs + [x], Decoder(d.length, rest)))
  {
    var d1 := Decoder(d.length, tail);
    assert tail[..|x|] == x && tail[|x|..] == rest;
    assert Decode(d1) == Success((x, Decoder(d.length, rest)));
    DecodeNSnoc(Decode, d, |xs|, xs, d1, x, Decoder(d.length, rest));
  }

  /** Arrays of the decoder's length, back to back, decode one by one. */
  lemma {:induction false} DecodeFlattened(length: int32, vs: seq<seq<byte>>, rest: seq<byte>)
    requires forall k | 0 <= k < |vs| :: |vs[k]| == length
    ensures DecodeN(Decode, Decoder(length, Flatten(vs) + rest), |vs|) == Success((vs, Decoder(length, rest)))
  {
    if |vs| > 0 {
      var front, last := vs[..|vs| - 1], vs[|vs| - 1];
      var tail := last + rest;
      DecodeFlattened(length, front, tail);
      AppendAssoc(Flatten(front), last, rest);
      DecodeNext(Decoder(length, Flatten(vs) + rest), front, tail, last, rest);
      SplitLast(vs);
    } else {
      assert vs == [] && Flatten(vs) + rest == rest;
    }
  }

  /** Decoding what was encoded: for arrays of one length, the count and
      the arrays come back in order. */
  lemma RoundTrip(vs: seq<seq<byte>>)
    requires |vs| < TWO_31
    requires forall k | 0 <= k < |vs| :: IsArray(vs[k])
    requires SameLength(vs)
    ensures EncodeAll(vs).Success?
    ensures var f := EncodeAll(vs).value.frame;
      && NewDecoder(WriteFrame(f)).Success?
      && NewDecoder(WriteFrame(f)).value.0 == |vs|
      && DecodeN(Decode, NewDecoder(WriteFrame(f)).value.1, |vs|).Success?
      && DecodeN(Decode, NewDecoder(WriteFrame(f)).value.1, |vs|).value.0 == vs
  {
    EncodeAllRepresents(vs);
    if |vs| == 0 {
      EmptyReadable();
    } else {
      var f := EncodeAll(vs).value.frame;
      assert WriteFrame(f) == WriteCount(|vs|) + (WriteUInt(|vs[0]|) + Flatten(vs));
      DecoderOver(|vs|, |vs[0]|, Flatten(vs));
      DecodeFlattened(|vs[0]|, vs, []);
      assert Flatten(vs) + [] == Flatten(vs);
    }
  }

  lemma DecoderOver(n: nat, length: int32, flat: seq<byte>)
    requires 0 < n < TWO_31 && length >= 0
    ensures NewDecoder(WriteCount(n) + (WriteUInt(length) + flat)) == Success((n as int32, Decoder(length, flat)))
  {
    CountRoundTrip(n, WriteUInt(length) + flat);
    UIntRoundTrip(length, flat);
  }

  /** The output of an encoder with no values, [0], has a count of 0 and
      nothing more: the intended constructor accepts it. */
  lemma EmptyReadable()
    ensures NewDecoder(WriteFrame(NewEncoder.frame)) == Success((0, Decoder(0, [])))
  {
    ResetFrame();
    CountRoundTrip(0, []);
    assert [0] == WriteCount(0) + [];
  }

  /** An encoder that received no value writes no length, so the
      constructor as written cannot be applied to its output. */
  lemma EmptyUnreadable()
    ensures WriteFrame(NewEncoder.frame) == [0]
    ensures NewDecoderAsWritten(WriteFrame(NewEncoder.frame)) == Failure(BufferUnderflow)
  {
    ResetFrame();
    CountRoundTrip(0, []);
    assert [0] == WriteCount(0) + [];
  }

  /** With at least one value the two constructors agree. */
  lemma ConstructorsAgree(bs: seq<byte>)
    requires ReadCount(bs).Success? && ReadCount(bs).value.value > 0
    ensures NewDecoder(bs) == NewDecoderAsWritten(bs)
  {
  }
}
