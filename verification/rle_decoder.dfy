/** Decoding `IntFixedBitWidthPackedRunLength` runs, and the round trip
    through the encoder. */
module RleDecoding {
  import opened Wrappers
  import opened Words
  import opened Bytes
  import opened Encoding
  import opened Seqs
  import opened BitStreams
  import opened IntFixedBitWidthPackedRunLength
  import opened RleRuns
  import opened RleEncoderInvariant


  /** `d` is between runs, with `rest` unread and width `width`: no repeat
      to return and the octuplet used up. */
  predicate IdleAt(d: Decoder, rest: seq<byte>, width: Width) {
    d == d.(rest := rest, width := width, numRleValuesToRead := 0, position := 8)
  }

  /** `|xs|` decodes from `d` return `xs` and leave the decoder idle, with
      `rest` unread. */
  predicate DecodesTo(d: Decoder, xs: seq<int32>, rest: seq<byte>) {
    var r := DecodeN(Decode, d, |xs|);
    r.Success? && r.value.0 == xs && IdleAt(r.value.1, rest, d.width)
  }

  /** `|xs|` decodes giving `xs`, then decoding `ys`, is decoding
      `xs + ys`. */
  lemma DecodesAppend(d: Decoder, xs: seq<int32>, d1: Decoder, ys: seq<int32>, rest: seq<byte>)
    requires DecodeN(Decode, d, |xs|) == Success((xs, d1)) && d1.width == d.width
    requires DecodesTo(d1, ys, rest)
    ensures DecodesTo(d, xs + ys, rest)
  {
    DecodeNThen(Decode, d, xs, d1, ys, DecodeN(Decode, d1, |ys|).value.1);
  }

  lemma RepeatCons(v: int32, k: nat)
    ensures [v] + Repeat(v, k) == Repeat(v, k + 1)
  {
    var a, b := [v] + Repeat(v, k), Repeat(v, k + 1);
    assert forall j | 0 <= j < |a| :: a[j] == b[j];
  }

  /** A decoder with `n` repeats to go returns them. */
  lemma {:induction false} RepeatsDecode(d: Decoder)
    ensures DecodeN(Decode, d, d.numRleValuesToRead)
         == Success((Repeat(d.rleValue, d.numRleValuesToRead), d.(numRleValuesToRead := 0)))
    decreases d.numRleValuesToRead
  {
    var k := d.numRleValuesToRead;
    if k > 0 {
      var d1 := d.(numRleValuesToRead := k - 1);
      RepeatsDecode(d1);
      RepeatCons(d.rleValue, k - 1);
      assert d1.(numRleValuesToRead := 0) == d.(numRleValuesToRead := 0);
    }
  }

  /** A run header reads back as the run's kind and count. */
  lemma RunHeaderRead(d: Decoder, count: nat, packed: bool, tail: seq<byte>)
    requires count < TWO_31 && d.rest == WriteUInt(RunHeader(count, packed)) + tail
    ensures BufferNextRun(d) == if packed then BufferNextPackedIntRun(d.(rest := tail), count)
                                else BufferNextRleRun(d.(rest := tail), count)
  {
    var header := RunHeader(count, packed);
    UIntRoundTrip(header, tail);
    var n := ToUnsigned(header, W32);
    DivModUnique(n, 2, count, if packed then 1 else 0);
  }

  /** An idle decoder reads a run-length header and the value after it. */
  lemma RleHeaderRead(d: Decoder, count: nat, value: int32, rest: seq<byte>)
    requires IdleAt(d, RunBytes(RleRun(count, value), d.width) + rest, d.width)
    requires WellFormed(RleRun(count, value), d.width)
    ensures BufferNextRun(d) == Success(d.(rest := rest, numRleValuesToRead := count, rleValue := value))
  {
    var tail := WritePackedInt(value, d.width) + rest;
    AppendAssoc(WriteUInt(RunHeader(count, false)), WritePackedInt(value, d.width), rest);
    RunHeaderRead(d, count, false, tail);
    PackedIntRoundTrip(value, d.width, rest);
  }

  /** An idle decoder reads a run-length run: the header, then the value,
      which it returns `count` times. */
  lemma RleRunDecodes(d: Decoder, count: nat, value: int32, rest: seq<byte>)
    requires IdleAt(d, RunBytes(RleRun(count, value), d.width) + rest, d.width)
    requires WellFormed(RleRun(count, value), d.width)
    ensures DecodesTo(d, Repeat(value, count), rest)
  {
    var d1 := d.(rest := rest, numRleValuesToRead := count, rleValue := value);
    RleHeaderRead(d, count, value, rest);
    DecodeNSameStep(Decode, d, d1, count);
    RepeatsDecode(d1);
  }

  /** The packed octuplets read back one at a time. */
  lemma PackedOctupletRead(octuplets: seq<seq<int32>>, width: Width, rest: seq<byte>)
    requires 0 < |octuplets| && AllOctuplets(octuplets, width)
    ensures ReadOctuplet(PackAll(octuplets, width) + rest, width)
         == Success(Parsed(octuplets[0], PackAll(octuplets[1..], width) + rest))
  {
    var o := octuplets[0];
    assert IsOctuplet(o, width);
    AppendAssoc(WritePackedInts(o, width, W32), PackAll(octuplets[1..], width), rest);
    PackedIntsRoundTripFitting(o, width, W32, PackAll(octuplets[1..], width) + rest);
    assert ToOctuplet(o) == o;
  }

  /** The decoder that has just read the first of `octuplets`, with the
      others ahead of `rest`. */
  function Load(d: Decoder, octuplets: seq<seq<int32>>, rest: seq<byte>): (r: Decoder)
    requires 0 < |octuplets| && AllOctuplets(octuplets, d.width)
    ensures r.width == d.width && r.position == 0 && r.numRleValuesToRead == 0
  {
    d.(rest := PackAll(octuplets[1..], d.width) + rest, octuplet := octuplets[0],
       numOctupletsToRead := |octuplets| - 1, position := 0, numRleValuesToRead := 0)
  }

  predicate Loaded(d: Decoder, octuplets: seq<seq<int32>>, rest: seq<byte>) {
    0 < |octuplets| && AllOctuplets(octuplets, d.width) && d == Load(d, octuplets, rest)
  }

  /** Reading the next octuplet of a packed run gives it back. */
  lemma OctupletRead(d: Decoder, octuplets: seq<seq<int32>>, rest: seq<byte>)
    requires 0 < |octuplets| && AllOctuplets(octuplets, d.width)
    requires d.rest == PackAll(octuplets, d.width) + rest && d.numOctupletsToRead == |octuplets|
    requires d.numRleValuesToRead == 0
    ensures BufferNextOctuplet(d) == Success(Load(d, octuplets, rest))
  {
    PackedOctupletRead(octuplets, d.width, rest);
  }

  /** An idle decoder reads a bit-packed run header and the first
      octuplet. */
  lemma PackedHeaderRead(d: Decoder, octuplets: seq<seq<int32>>, rest: seq<byte>)
    requires IdleAt(d, RunBytes(PackedRun(octuplets), d.width) + rest, d.width)
    requires WellFormed(PackedRun(octuplets), d.width)
    ensures BufferNextRun(d) == Success(Load(d, octuplets, rest))
  {
    var tail := PackAll(octuplets, d.width) + rest;
    AppendAssoc(WriteUInt(RunHeader(|octuplets|, true)), PackAll(octuplets, d.width), rest);
    RunHeaderRead(d, |octuplets|, true, tail);
    var d0 := d.(rest := tail, numOctupletsToRead := |octuplets|);
    OctupletRead(d0, octuplets, rest);
    assert Load(d0, octuplets, rest) == Load(d, octuplets, rest);
  }

  /** The first `k` values of the current octuplet, while that does not
      use it up. */
  lemma {:induction false} OctupletValues(d: Decoder, k: nat)
    requires d.numRleValuesToRead == 0 && d.position + k <= 7
    ensures DecodeN(Decode, d, k) == Success((d.octuplet[d.position..d.position + k], d.(position := d.position + k)))
    decreases k
  {
    if k > 0 {
      var d1 := d.(position := d.position + 1);
      assert Decode(d) == Success((d.octuplet[d.position], d1));
      OctupletValues(d1, k - 1);
      assert d1.(position := d1.position + k - 1) == d.(position := d.position + k);
      assert [d.octuplet[d.position]] + d.octuplet[d.position + 1..d.position + k] == d.octuplet[d.position..d.position + k];
    } else {
      assert d.(position := d.position) == d;
    }
  }

  /** The decoder after the last value of the current octuplet: the next
      octuplet of the run loaded, or, after the last one, idle. */
  function NextOctuplet(d: Decoder, octuplets: seq<seq<int32>>, rest: seq<byte>): (r: Decoder)
    requires Loaded(d, octuplets, rest)
    ensures |octuplets| > 1 ==> Loaded(r, octuplets[1..], rest)
    ensures |octuplets| == 1 ==> IdleAt(r, rest, d.width)
  {
    if |octuplets| > 1 then
      assert octuplets[1..][1..] == octuplets[2..];
      Load(d.(position := 8), octuplets[1..], rest)
    else
      assert PackAll(octuplets[1..], d.width) == [];
      d.(position := 8)
  }

  /** The last value of an octuplet. */
  lemma LastValue(d: Decoder, octuplets: seq<seq<int32>>, rest: seq<byte>)
    requires Loaded(d, octuplets, rest)
    ensures Decode(d.(position := 7)) == Success((octuplets[0][7], NextOctuplet(d, octuplets, rest)))
  {
    if |octuplets| > 1 {
      OctupletRead(d.(position := 8), octuplets[1..], rest);
    }
  }

  /** The first seven values of a freshly loaded octuplet. */
  lemma FirstValues(d: Decoder)
    requires d.numRleValuesToRead == 0 && d.position == 0
    ensures DecodeN(Decode, d, 7) == Success((d.octuplet[..7], d.(position := 7)))
  {
    OctupletValues(d, 7);
    assert d.(position := d.position + 7) == d.(position := 7);
  }

  /** The eight values of the current octuplet. */
  lemma OctupletDecodes(d: Decoder, octuplets: seq<seq<int32>>, rest: seq<byte>)
    requires Loaded(d, octuplets, rest)
    ensures DecodeN(Decode, d, 8) == Success((octuplets[0], NextOctuplet(d, octuplets, rest)))
  {
    var o, d7 := octuplets[0], d.(position := 7);
    FirstValues(d);
    LastValue(d, octuplets, rest);
    DecodeNSnoc(Decode, d, 7, o[..7], d7, o[7], NextOctuplet(d, octuplets, rest));
    assert |o| == 8;
    SplitLast(o);
  }

  /** A loaded decoder returns the values of all its octuplets. */
  lemma {:induction false} LoadedDecodes(d: Decoder, octuplets: seq<seq<int32>>, rest: seq<byte>)
    requires Loaded(d, octuplets, rest)
    ensures DecodesTo(d, Concat(octuplets), rest)
    decreases |octuplets|
  {
    var d' := NextOctuplet(d, octuplets, rest);
    OctupletDecodes(d, octuplets, rest);
    if |octuplets| > 1 {
      LoadedDecodes(d', octuplets[1..], rest);
      DecodesAppend(d, octuplets[0], d', Concat(octuplets[1..]), rest);
    } else {
      assert Concat(octuplets) == octuplets[0];
    }
  }

  /** An idle decoder reads a bit-packed run: the header, then the
      octuplets one by one. */
  lemma PackedRunDecodes(d: Decoder, octuplets: seq<seq<int32>>, rest: seq<byte>)
    requires IdleAt(d, RunBytes(PackedRun(octuplets), d.width) + rest, d.width)
    requires WellFormed(PackedRun(octuplets), d.width)
    ensures DecodesTo(d, Concat(octuplets), rest)
  {
    var d1 := Load(d, octuplets, rest);
    PackedHeaderRead(d, octuplets, rest);
    LoadedDecodes(d1, octuplets, rest);
    DecodeNSameStep(Decode, d, d1, |Concat(octuplets)|);
  }

  lemma RunDecodes(d: Decoder, run: Run, rest: seq<byte>)
    requires IdleAt(d, RunBytes(run, d.width) + rest, d.width) && WellFormed(run, d.width)
    ensures DecodesTo(d, RunValues(run), rest)
  {
    match run
    case RleRun(count, value) => RleRunDecodes(d, count, value, rest);
    case PackedRun(octuplets) => PackedRunDecodes(d, octuplets, rest);
  }

  /** An idle decoder reads well-formed runs back as their values, in
      order, and stops right after them. */
  lemma {:induction false} RunsDecode(d: Decoder, runs: seq<Run>, rest: seq<byte>)
    requires IdleAt(d, RunsBytes(runs, d.width) + rest, d.width) && AllWellFormed(runs, d.width)
    ensures DecodesTo(d, RunsValues(runs), rest)
  {
    if |runs| == 0 {
      assert RunsBytes(runs, d.width) + rest == rest;
    } else {
      var front, last := runs[..|runs| - 1], runs[|runs| - 1];
      var mid := RunBytes(last, d.width) + rest;
      AppendAssoc(RunsBytes(front, d.width), RunBytes(last, d.width), rest);
      RunsDecode(d, front, mid);
      var d1 := DecodeN(Decode, d, |RunsValues(front)|).value.1;
      RunDecodes(d1, last, rest);
      DecodesAppend(d, RunsValues(front), d1, RunValues(last), rest);
    }
  }

  /** What `writeTo` writes after encoding `vs`: the count, then runs
      holding `vs` and the zeros padding the last octuplet. */
  lemma EncodedRuns(width: Width, vs: seq<int32>) returns (runs: seq<Run>)
    requires |vs| < TWO_31 && forall k | 0 <= k < |vs| :: Fits(vs[k], width, W32)
    ensures WriteTo(EncodeAll(width, vs)) == WriteCount(|vs|) + RunsBytes(runs, width)
    ensures AllWellFormed(runs, width)
    ensures |vs| <= |RunsValues(runs)| && RunsValues(runs)[..|vs|] == vs
  {
    var runs0, octuplets := EncodeAllHolds(width, vs);
    var e := EncodeAll(width, vs);
    runs := FinishHolds(e, runs0, octuplets, vs);
    var pad := if |e.pending| > 0 then 8 - |e.pending| else 0;
    assert RunsValues(runs) == vs + Repeat(0, pad);
    assert (vs + Repeat(0, pad))[..|vs|] == vs;
  }

  /** The decoder over a count and a body starts idle before the body. */
  lemma DecoderStart(n: nat, body: seq<byte>, width: Width)
    requires n < TWO_31
    ensures NewDecoder(WriteCount(n) + body, width).Success?
    ensures NewDecoder(WriteCount(n) + body, width).value.0 == n as int32
    ensures IdleAt(NewDecoder(WriteCount(n) + body, width).value.1, body, width)
    ensures NewDecoder(WriteCount(n) + body, width).value.1.width == width
  {
    CountRoundTrip(n, body);
  }

  /** Decoding what was encoded: for values that fit the width, the count
      and the values come back in order (the zeros padding the last
      octuplet follow them, past the count). */
  lemma RoundTrip(width: Width, vs: seq<int32>)
    requires |vs| < TWO_31 && forall k | 0 <= k < |vs| :: Fits(vs[k], width, W32)
    ensures var r := NewDecoder(WriteTo(EncodeAll(width, vs)), width);
      && r.Success? && r.value.0 == |vs| as int32
      && DecodeN(Decode, r.value.1, |vs|).Success?
      && DecodeN(Decode, r.value.1, |vs|).value.0 == vs
  {
    var runs := EncodedRuns(width, vs);
    var body := RunsBytes(runs, width);
    DecoderStart(|vs|, body, width);
    var d := NewDecoder(WriteCount(|vs|) + body, width).value.1;
    assert body + [] == body;
    RunsDecode(d, runs, []);
    DecodeNPrefix(Decode, d, |vs|, |RunsValues(runs)|);
  }
}
