/** dendrite's `BooleanPacked` encoding: booleans gathered in octuplets,
    each octuplet written as one byte with its first boolean in the most
    significant bit. */
module BooleanPacked {
  import opened Wrappers
  import opened Words
  import opened Bytes
  import opened Encoding
  import opened Seqs

  /** The encoder: the frame, the octuplet being filled (eight slots, which
      keep their old values until overwritten) and the next slot. */
  datatype Encoder = Encoder(frame: Frame, octuplet: seq<bool>, position: nat) {
    predicate Valid() {
      |octuplet| == 8 && position < 8
    }
  }

  const NewEncoder := Encoder(EmptyFrame, [false, false, false, false, false, false, false, false], 0)

  /** The byte an octuplet is written as. */
  function PackByte(octuplet: seq<bool>): (b: byte)
    requires |octuplet| == 8
    ensures ReadPackedBooleans(b) == octuplet
  {
    PackedBooleansRoundTrip(octuplet);
    WritePackedBooleans(octuplet) as byte
  }

  /** `encode`: one more value; a byte is written each time the octuplet
      fills up. */
  function Encode(e: Encoder, b: bool): (r: Encoder)
    requires e.Valid()
    ensures r.Valid()
    ensures r.frame.numValues == e.frame.numValues + 1
    ensures r.position == (e.position + 1) % 8
    ensures |r.frame.body| == |e.frame.body| + (if e.position == 7 then 1 else 0)
  {
    var octuplet := e.octuplet[e.position := b];
    if e.position + 1 == 8 then Encoder(Append(e.frame, [PackByte(octuplet)]), octuplet, 0)
    else Encoder(Append(e.frame, []), octuplet, e.position + 1)
  }

  /** `reset`: no values and no pending octuplet. */
  function Reset(e: Encoder): (r: Encoder)
    requires e.Valid()
    ensures r.Valid() && r.frame == EmptyFrame && r.position == 0
  {
    Encoder(EmptyFrame, e.octuplet, 0)
  }

  /** `finish`: a partly filled octuplet is written whole, so its unused
      slots become padding bits. */
  function Finish(e: Encoder): (r: Encoder)
    requires e.Valid()
    ensures r.Valid() && r.position == 0 && r.frame.numValues == e.frame.numValues
    ensures |r.frame.body| == |e.frame.body| + (if e.position > 0 then 1 else 0)
  {
    if e.position > 0 then Encoder(Extend(e.frame, [PackByte(e.octuplet)]), e.octuplet, 0)
    else e
  }

  /** `writeTo`: finishes, then writes the count and the body. */
  function WriteTo(e: Encoder): seq<byte>
    requires e.Valid()
  {
    WriteFrame(Finish(e).frame)
  }

  /** `estimatedLength`: the length so far, plus one byte for a pending
      octuplet; this is exactly what `writeTo` writes. */
  function EstimatedLength(e: Encoder): (n: nat)
    requires e.Valid()
    ensures n == |WriteTo(e)|
  {
    FrameLength(e.frame) + (if e.position == 0 then 0 else 1)
  }

  /** The encoder after encoding `vs` from a fresh one. */
  function EncodeAll(vs: seq<bool>): (e: Encoder)
    ensures e.Valid()
  {
    if |vs| == 0 then NewEncoder else Encode(EncodeAll(vs[..|vs| - 1]), vs[|vs| - 1])
  }

  /** The booleans a sequence of packed bytes holds, eight per byte. */
  function Unpacked(bytes: seq<byte>): (r: seq<bool>)
    ensures |r| == 8 * |bytes|
  {
    if |bytes| == 0 then [] else ReadPackedBooleans(bytes[0]) + Unpacked(bytes[1..])
  }

  lemma {:induction false} UnpackedAppend(a: seq<byte>, b: seq<byte>)
    ensures Unpacked(a + b) == Unpacked(a) + Unpacked(b)
  {
    if |a| == 0 {
      assert a + b == b;
    } else {
      assert (a + b)[1..] == a[1..] + b;
      UnpackedAppend(a[1..], b);
    }
  }

  /** How an encoder holds the values `vs`: the whole octuplets are in the
      body, the rest at the front of the octuplet. */
  predicate Represents(e: Encoder, vs: seq<bool>) {
    && e.Valid()
    && e.frame.numValues == |vs|
    && e.position == |vs| % 8
    && Unpacked(e.frame.body) + e.octuplet[..e.position] == vs
  }

  lemma ModStep(n: nat)
    ensures (n + 1) % 8 == if n % 8 == 7 then 0 else n % 8 + 1
  {
    var p := n % 8;
    DivModUnique(n, 8, n / 8, p);
    if p == 7 {
      DivModUnique(n + 1, 8, n / 8 + 1, 0);
    } else {
      DivModUnique(n + 1, 8, n / 8, p + 1);
    }
  }

  /** Writing one more octuplet adds its eight booleans. */
  lemma UnpackedPush(body: seq<byte>, octuplet: seq<bool>)
    requires |octuplet| == 8
    ensures Unpacked(body + [PackByte(octuplet)]) == Unpacked(body) + octuplet
  {
    var b := PackByte(octuplet);
    UnpackedAppend(body, [b]);
    assert Unpacked([b]) == ReadPackedBooleans(b) + Unpacked([]);
  }

  /** The slot written by `encode` extends the octuplet's filled prefix. */
  lemma OctupletPush(octuplet: seq<bool>, p: nat, b: bool)
    requires p < |octuplet|
    ensures octuplet[p := b][..p + 1] == octuplet[..p] + [b]
  {
  }

  /** `encode` keeps the representation: the new value goes to the end. */
  lemma EncodeRepresents(e: Encoder, vs: seq<bool>, b: bool)
    requires Represents(e, vs)
    ensures Represents(Encode(e, b), vs + [b])
  {
    var p := e.position;
    var whole := Unpacked(e.frame.body);
    OctupletPush(e.octuplet, p, b);
    AppendAssoc(whole, e.octuplet[..p], [b]);
    assert whole + e.octuplet[p := b][..p + 1] == vs + [b];
    ModStep(|vs|);
    if p == 7 {
      FillRepresents(e, vs + [b], b);
    } else {
      PendRepresents(e, vs + [b], b);
    }
  }

  /** The eighth value: the octuplet goes to the body. */
  lemma FillRepresents(e: Encoder, ws: seq<bool>, b: bool)
    requires e.Valid() && e.position == 7 && |ws| % 8 == 0
    requires e.frame.numValues + 1 == |ws|
    requires Unpacked(e.frame.body) + e.octuplet[7 := b][..8] == ws
    ensures Represents(Encode(e, b), ws)
  {
    var octuplet := e.octuplet[7 := b];
    assert Encode(e, b) == Encoder(Append(e.frame, [PackByte(octuplet)]), octuplet, 0);
    FilledBody(e.frame.body, octuplet, ws);
  }

  lemma FilledBody(body: seq<byte>, octuplet: seq<bool>, ws: seq<bool>)
    requires |octuplet| == 8 && Unpacked(body) + octuplet[..8] == ws
    ensures Unpacked(body + [PackByte(octuplet)]) + octuplet[..0] == ws
  {
    UnpackedPush(body, octuplet);
    assert octuplet[..8] == octuplet && octuplet[..0] == [];
    assert Unpacked(body) + octuplet + [] == Unpacked(body) + octuplet;
  }

  /** Any other value stays in the octuplet. */
  lemma PendRepresents(e: Encoder, ws: seq<bool>, b: bool)
    requires e.Valid() && e.position < 7 && |ws| % 8 == e.position + 1
    requires e.frame.numValues + 1 == |ws|
    requires Unpacked(e.frame.body) + e.octuplet[e.position := b][..e.position + 1] == ws
    ensures Represents(Encode(e, b), ws)
  {
    var r := Encode(e, b);
    assert e.frame.body + [] == e.frame.body;
    assert r.frame.body == e.frame.body;
    assert r.octuplet == e.octuplet[e.position := b];
  }

  lemma {:induction false} EncodeAllRepresents(vs: seq<bool>)
    ensures Represents(EncodeAll(vs), vs)
  {
    if |vs| == 0 {
      var e := EncodeAll(vs);
      assert e.frame.body == [] && e.position == 0;
      assert Unpacked(e.frame.body) == [];
    } else {
      var front := vs[..|vs| - 1];
      SplitLast(vs);
      EncodeAllRepresents(front);
      EncodeRepresents(EncodeAll(front), front, vs[|vs| - 1]);
    }
  }

  /** The finished body unpacks to the encoded values, followed by at most
      seven padding booleans. */
  lemma FinishedBody(vs: seq<bool>)
    ensures var body := Finish(EncodeAll(vs)).frame.body;
      |body| == BytesForBooleans(|vs|) && Unpacked(body)[..|vs|] == vs
  {
    EncodeAllRepresents(vs);
    FinishRepresents(EncodeAll(vs), vs);
  }

  lemma FinishRepresents(e: Encoder, vs: seq<bool>)
    requires Represents(e, vs)
    ensures var body := Finish(e).frame.body;
      |body| == BytesForBooleans(|vs|) && Unpacked(body)[..|vs|] == vs
  {
    var p := e.position;
    var whole := Unpacked(e.frame.body);
    assert |vs| == 8 * |e.frame.body| + p;
    if p > 0 {
      DivModUnique(|vs| + 7, 8, |e.frame.body| + 1, p - 1);
      FinishPending(e, vs);
    } else {
      DivModUnique(|vs| + 7, 8, |e.frame.body|, 7);
      assert e.octuplet[..0] == [];
      assert whole + [] == whole;
      assert whole[..|whole|] == whole;
    }
  }

  lemma FinishPending(e: Encoder, vs: seq<bool>)
    requires e.Valid() && e.position > 0
    requires Unpacked(e.frame.body) + e.octuplet[..e.position] == vs
    ensures Unpacked(Finish(e).frame.body)[..|vs|] == vs
  {
    var p := e.position;
    var whole := Unpacked(e.frame.body);
    UnpackedPush(e.frame.body, e.octuplet);
    assert Unpacked(Finish(e).frame.body) == whole + e.octuplet;
    SplitAt(e.octuplet, p);
    AppendAssoc(whole, e.octuplet[..p], e.octuplet[p..]);
    TakeOfAppend(vs, e.octuplet[p..], |vs|);
    assert vs[..|vs|] == vs;
  }

  /** `ceil(n / 8)`: one byte per started octuplet. */
  function BytesForBooleans(n: nat): nat {
    (n + 7) / 8
  }

  // ---------------------------------------------------------------------
  // Decoder

  /** The decoder: the unread buffer, the last octuplet read and the next
      slot to return (8 once it is used up; 0 before the first read). */
  datatype Decoder = Decoder(rest: seq<byte>, octuplet: seq<bool>, position: nat)

  /** The constructor: the count, and a decoder positioned after it. */
  function NewDecoder(bs: seq<byte>): Outcome<(int32, Decoder)> {
    var count :- ReadCount(bs);
    Success((count.value, Decoder(count.rest, [false, false, false, false, false, false, false, false], 0)))
  }

  /** `decode`: reads a new byte when the octuplet is used up. */
  function Decode(d: Decoder): (r: Outcome<(bool, Decoder)>)
    ensures r.Failure? ==> d.position % 8 == 0 && |d.rest| == 0
  {
    if d.position % 8 == 0 then
      if |d.rest| == 0 then Failure(BufferUnderflow)
      else
        var octuplet := ReadPackedBooleans(d.rest[0]);
        Success((octuplet[0], Decoder(d.rest[1..], octuplet, 1)))
    else if d.position < |d.octuplet| then
      Success((d.octuplet[d.position], d.(position := d.position + 1)))
    else Success((false, d)) // never reached: the position never passes 8
  }

  /** What a decoder will return from now on: the rest of its octuplet, then
      the booleans of the unread bytes. */
  function Pending(d: Decoder): seq<bool>
    requires |d.octuplet| == 8 && d.position <= 8
  {
    (if d.position % 8 == 0 then [] else d.octuplet[d.position..]) + Unpacked(d.rest)
  }

  /** `decode` with the octuplet used up reads the next byte. */
  lemma DecodeLoad(d: Decoder) returns (b: bool, d': Decoder)
    requires |d.octuplet| == 8 && d.position <= 8 && d.position % 8 == 0 && |d.rest| > 0
    ensures Decode(d) == Success((b, d'))
    ensures |d'.octuplet| == 8 && d'.position <= 8 && b == Pending(d)[0] && Pending(d') == Pending(d)[1..]
  {
    var octuplet := ReadPackedBooleans(d.rest[0]);
    assert Unpacked(d.rest) == octuplet + Unpacked(d.rest[1..]);
    b, d' := octuplet[0], Decoder(d.rest[1..], octuplet, 1);
    assert Pending(d) == octuplet + Unpacked(d.rest[1..]);
    DropOfAppend(octuplet, Unpacked(d.rest[1..]), 1);
  }

  /** Midway through the octuplet, its rest is pending ahead of the
      unread bytes. */
  lemma PendingWithin(d: Decoder)
    requires |d.octuplet| == 8 && 0 < d.position < 8
    ensures Pending(d) == d.octuplet[d.position..] + Unpacked(d.rest)
  {
    assert d.position % 8 == d.position;
  }

  /** `decode` within the octuplet returns its next slot. */
  lemma DecodeSlot(d: Decoder) returns (b: bool, d': Decoder)
    requires |d.octuplet| == 8 && 0 < d.position < 8
    ensures Decode(d) == Success((b, d'))
    ensures |d'.octuplet| == 8 && d'.position <= 8 && b == Pending(d)[0] && Pending(d') == Pending(d)[1..]
  {
    var tail := d.octuplet[d.position..];
    b, d' := d.octuplet[d.position], d.(position := d.position + 1);
    PendingWithin(d);
    DropOfAppend(tail, Unpacked(d.rest), 1);
    if d.position == 7 {
      assert Pending(d') == Unpacked(d.rest) by {
        assert d'.position % 8 == 0;
      }
      assert tail[1..] == [];
    } else {
      PendingWithin(d');
      assert tail[1..] == d.octuplet[d'.position..];
    }
  }

  /** One `decode` returns the first pending boolean and leaves the rest
      pending. */
  lemma DecodeStep(d: Decoder) returns (b: bool, d': Decoder)
    requires |d.octuplet| == 8 && d.position <= 8
    requires |Pending(d)| > 0
    ensures Decode(d) == Success((b, d'))
    ensures |d'.octuplet| == 8 && d'.position <= 8 && b == Pending(d)[0] && Pending(d') == Pending(d)[1..]
  {
    if d.position % 8 == 0 {
      assert |d.rest| > 0;
      b, d' := DecodeLoad(d);
    } else {
      assert 0 < d.position < 8;
      b, d' := DecodeSlot(d);
    }
  }

  lemma {:induction false} DecodePending(d: Decoder, n: nat)
    requires |d.octuplet| == 8 && d.position <= 8
    requires n <= |Pending(d)|
    ensures DecodeN(Decode, d, n).Success?
    ensures DecodeN(Decode, d, n).value.0 == Pending(d)[..n]
    decreases n
  {
    if n > 0 {
      var b, d' := DecodeStep(d);
      DecodePending(d', n - 1);
      var more := DecodeN(Decode, d', n - 1).value;
      DecodeNCons(Decode, d, n, b, d', more.0, more.1);
      TakeCons(Pending(d), n);
    } else {
      assert Pending(d)[..0] == [];
    }
  }

  /** A decoder over a count and packed bytes returns the first `count`
      booleans the bytes hold. */
  lemma DecodeBody(n: nat, body: seq<byte>)
    requires n < TWO_31 && n <= 8 * |body|
    ensures NewDecoder(WriteCount(n) + body).Success?
    ensures var (count, d) := NewDecoder(WriteCount(n) + body).value;
      count == n && DecodeN(Decode, d, n).Success? && DecodeN(Decode, d, n).value.0 == Unpacked(body)[..n]
  {
    CountRoundTrip(n, body);
    var d := Decoder(body, [false, false, false, false, false, false, false, false], 0);
    assert NewDecoder(WriteCount(n) + body) == Success((n as int32, d));
    assert Pending(d) == Unpacked(body);
    DecodePending(d, n);
  }

  /** Decoding what was encoded: the count comes back, and the first
      `count` decodes return the encoded booleans in order. */
  lemma RoundTrip(vs: seq<bool>)
    requires |vs| < TWO_31
    ensures NewDecoder(WriteTo(EncodeAll(vs))).Success?
    ensures var (count, d) := NewDecoder(WriteTo(EncodeAll(vs))).value;
      count == |vs| && DecodeN(Decode, d, |vs|).Success? && DecodeN(Decode, d, |vs|).value.0 == vs
  {
    var e := EncodeAll(vs);
    EncodeAllRepresents(vs);
    FinishedBody(vs);
    var f := Finish(e).frame;
    assert f.numValues == |vs|;
    DecodeBody(|vs|, f.body);
  }
}
