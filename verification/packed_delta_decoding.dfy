/** The delta decoder reads back what the delta encoder writes. A block
    layout `Represents` its values when its header matches them, each frame
    slot holds its difference less the smallest one in the word's low bits,
    and every slot fits its miniblock's width. Such a layout decodes to its
    values (`BlockRoundTrip`); the layouts the encoder builds represent
    their values (`LayoutRepresents`); and the blocks of a stream decode
    one after the other (`StreamRoundTrip`). */
module PackedDeltaDecoding {
  import opened Wrappers
  import opened Seqs
  import opened Words
  import opened Bytes
  import opened BitStreams
  import opened Encoding
  import opened PackedDelta

  // ---------------------------------------------------------------------
  // Arithmetic in the word's low bits

  /** `a` and `b` have the same low `w.Bits()` bits. */
  predicate Congruent(a: int, b: int, w: Word) {
    (a - b) % w.Modulus() == 0
  }

  lemma CongruentSum(a1: int, b1: int, a2: int, b2: int, w: Word)
    requires Congruent(a1, b1, w) && Congruent(a2, b2, w)
    ensures Congruent(a1 + a2, b1 + b2, w)
  {
    var m := w.Modulus();
    var q1, q2 := (a1 - b1) / m, (a2 - b2) / m;
    assert a1 - b1 == m * q1 && a2 - b2 == m * q2;
    assert (a1 + a2) - (b1 + b2) == m * (q1 + q2);
    DivModUnique((a1 + a2) - (b1 + b2), m, q1 + q2, 0);
  }

  lemma CongruentTrans(a: int, b: int, c: int, w: Word)
    requires Congruent(a, b, w) && Congruent(b, c, w)
    ensures Congruent(a, c, w)
  {
    CongruentSum(a, b, b, c, w);
    assert (a + b) - (b + c) == a - c;
  }

  /** A value of the word is the narrowing of anything congruent to it. */
  lemma CongruentSigned(x: int, v: int, w: Word)
    requires Congruent(x, v, w) && w.Holds(v)
    ensures ToSigned(x, w) == v
  {
    var m := w.Modulus();
    var q := (x - v) / m;
    assert x - v == m * q;
    if v >= 0 {
      DivModUnique(x, m, q, v);
    } else {
      DivModUnique(x, m, q - 1, v + m);
    }
  }

  /** What `setCurrentValueFromMiniBlockBuffer` adds keeps the accumulator
      congruent to the values. */
  lemma AccumulateStep(cur: int, prev: int, slot: int, md: int, next: int, w: Word)
    requires Congruent(cur, prev, w)
    requires Congruent(ToUnsigned(slot, w) + md, next - prev, w)
    ensures Congruent(Accumulate(cur, Accumulate(ToUnsigned(slot, w), md, w), w), next, w)
  {
    var u := ToUnsigned(slot, w);
    var delta := Accumulate(u, md, w);
    var r := Accumulate(cur, delta, w);
    CongruentTrans(delta, u + md, next - prev, w);
    CongruentSum(cur, prev, delta, next - prev, w);
    assert prev + (next - prev) == next;
    CongruentTrans(r, cur + delta, next, w);
  }

  /** A frame entry read back as unsigned, plus the smallest difference, is
      congruent to its difference. */
  lemma EntryCongruent(d: int, m: int, w: Word)
    ensures Congruent(ToUnsigned(ToSigned(d - m, w), w) + m, d, w)
  {
    var x := d - m;
    var mod := w.Modulus();
    UnsignedSigned(x, w);
    DivModUnique(x, mod, x / mod, x % mod);
    assert (x % mod + m) - d == mod * (-(x / mod));
    DivModUnique((x % mod + m) - d, mod, -(x / mod), 0);
  }

  lemma MulLess(j: nat, n: nat, m: nat)
    requires j * m < n * m
    ensures j < n
  {
  }

  lemma MulSucc(j: int, m: int)
    ensures (j + 1) * m == j * m + m
  {
  }

  /** A value fits any width from its bit width up to the word size. */
  lemma FitsWidened(i: int, wider: nat, w: Word)
    requires w.Holds(i) && GetBitWidth(i, w) <= wider <= w.Bits()
    ensures Fits(i, wider, w)
  {
    FitsBitWidth(i, w);
    if i >= 0 {
      Pow2Monotone(GetBitWidth(i, w), wider);
    }
  }


  // ---------------------------------------------------------------------
  // What a block must satisfy

  predicate AllFit(s: seq<int>, width: nat, w: Word) {
    forall k | 0 <= k < |s| :: w.Holds(s[k]) && Fits(s[k], width, w)
  }

  /** The header of `l` matches the values `vs`, and its miniblocks cover
      their differences. */
  predicate Shaped(l: Layout, vs: seq<int>, w: Word) {
    && l.Writable(w) && |vs| == l.count && AllHold(vs, w) && l.start == vs[0]
    && |l.frame| == BufferSlots && |l.widths| <= WidthSlots && l.miniblockLength <= BufferSlots
    && (|vs| == 1 ==> |l.widths| == 0)
    && (|vs| > 1 ==>
        && |l.widths| > 0 && l.miniblockLength > 0
        && l.blockLength == |l.widths| * l.miniblockLength
        && |vs| - 1 <= l.blockLength)
  }

  /** Each frame slot read as unsigned, plus the smallest difference, is
      congruent to its difference. */
  predicate Congruences(l: Layout, vs: seq<int>, w: Word)
    requires |vs| - 1 <= |l.frame|
  {
    forall k | 0 <= k < |vs| - 1 ::
      Congruent(ToUnsigned(l.frame[k], w) + l.minDelta, vs[k + 1] - vs[k], w)
  }

  /** Every slot of a miniblock fits the miniblock's width. */
  predicate Fitting(l: Layout, w: Word)
    requires l.Writable(w) && 1 <= l.count
  {
    forall j | 0 <= j < |l.widths| :: AllFit(MiniblockEntries(l, j), l.widths[j], w)
  }

  /** The layout `l` holds the values `vs`. */
  predicate Represents(l: Layout, vs: seq<int>, w: Word) {
    Shaped(l, vs, w) && Congruences(l, vs, w) && Fitting(l, w)
  }

  lemma FrameCongruences(l: Layout, vs: seq<int>, w: Word)
    requires 1 <= |vs| && |vs| - 1 <= |l.frame|
    requires l.frame[..|vs| - 1] == Excess(Deltas(vs), l.minDelta, w)
    ensures Congruences(l, vs, w)
  {
    var ds := Deltas(vs);
    forall k | 0 <= k < |vs| - 1
      ensures Congruent(ToUnsigned(l.frame[k], w) + l.minDelta, vs[k + 1] - vs[k], w)
    {
      assert l.frame[k] == l.frame[..|vs| - 1][k] == ToSigned(ds[k] - l.minDelta, w);
      EntryCongruent(ds[k], l.minDelta, w);
    }
  }

  lemma MulNat(a: nat, b: nat)
    ensures a * b >= 0
  {
  }

  /** Slots `from` onwards of a frame fit the widest of the `len` slots
      from there. */
  lemma SliceFits(es: seq<int>, frame: seq<int>, from: nat, len: nat, width: nat, w: Word)
    requires from + len <= |frame| && |es| <= len && es == frame[from..from + |es|] && AllHold(frame, w)
    requires width == MiniblockWidth(frame, from, len, w)
    ensures AllFit(es, width, w)
  {
    forall i | 0 <= i < |es|
      ensures w.Holds(es[i]) && Fits(es[i], width, w)
    {
      assert es[i] == frame[from + i];
      FitsWidened(frame[from + i], width, w);
    }
  }

  lemma MiniblockFits(l: Layout, j: nat, w: Word)
    requires l.Writable(w) && 1 <= l.count && j < |l.widths|
    requires j * l.miniblockLength + l.miniblockLength <= |l.frame|
    requires l.widths[j] == MiniblockWidth(l.frame, j * l.miniblockLength, l.miniblockLength, w)
    ensures AllFit(MiniblockEntries(l, j), l.widths[j], w)
  {
    MulNat(j, l.miniblockLength);
    SliceFits(MiniblockEntries(l, j), l.frame, j * l.miniblockLength, l.miniblockLength, l.widths[j], w);
  }

  /** Widths chosen as `getMiniBlockBitWidth` chooses them fit their
      miniblocks. */
  lemma FrameFits(l: Layout, w: Word)
    requires l.Writable(w) && 1 <= l.count
    requires l.widths == Widths(l.frame, l.miniblockLength, |l.widths|, w)
    ensures Fitting(l, w)
  {
    forall j | 0 <= j < |l.widths|
      ensures AllFit(MiniblockEntries(l, j), l.widths[j], w)
    {
      MiniblockFits(l, j, w);
    }
  }

  lemma LayoutShaped(vs: seq<int>, frame: seq<int>, ml: nat, w: Word)
    requires Group(vs, w) && |frame| == BufferSlots && AllHold(frame, w)
    requires Candidate(ml, BlockLength(|vs|))
    ensures Shaped(LayoutOf(vs, frame, ml, w), vs, w)
  {
    var bl := BlockLength(|vs|);
    NumMiniblocks(bl, ml);
    if |vs| > 1 {
      assert ml <= bl;
      MulAtLeast(ml, bl / ml);
    }
  }

  /** Every miniblock length the search tries gives a layout that holds
      the values, from any frame that starts with the entries: the zeroed
      frame and the stale one alike. */
  lemma LayoutRepresents(vs: seq<int>, frame: seq<int>, ml: nat, w: Word)
    requires Group(vs, w) && |frame| == BufferSlots && AllHold(frame, w)
    requires frame[..|vs| - 1] == Entries(vs, w)
    requires Candidate(ml, BlockLength(|vs|))
    ensures Represents(LayoutOf(vs, frame, ml, w), vs, w)
  {
    var l := LayoutOf(vs, frame, ml, w);
    LayoutShaped(vs, frame, ml, w);
    FrameCongruences(l, vs, w);
    FrameFits(l, w);
  }

  // ---------------------------------------------------------------------
  // Reading the header

  lemma StartRoundTrip(v: int, w: Word, rest: seq<byte>)
    requires w.Holds(v)
    ensures ReadStart(WriteStart(v, w) + rest, w) == Success(Parsed(v, rest))
  {
    if w.W32? {
      SIntRoundTrip(v, rest);
    } else {
      SLongRoundTrip(v, rest);
    }
  }

  lemma MinDeltaRoundTrip(m: int, w: Word, rest: seq<byte>)
    requires w.W32? ==> W64.Holds(m)
    ensures ReadMinDelta(WriteMinDelta(m, w) + rest, w) == Success(Parsed(m, rest))
  {
    if w.W32? {
      SLongRoundTrip(m, rest);
    } else {
      SIntVLQRoundTrip(m, rest);
    }
  }

  /** `initNextBlock` on the header of a block with no miniblocks. */
  lemma BareHeader(d: Decoder, bl: int32, count: int32, start: int, more: seq<byte>, w: Word)
    requires w.Holds(start)
    requires d.rest == WriteUInt(bl) + (WriteUInt(0) + (WriteUInt(count) + (WriteStart(start, w) + more)))
    ensures InitNextBlock(d, w) == Success(d.(rest := more, blockLength := bl, numMiniblocks := 0,
      miniblockLength := 0, remaining := count, position := -1, index := -1, current := start))
  {
    UIntRoundTrip(bl, WriteUInt(0) + (WriteUInt(count) + (WriteStart(start, w) + more)));
    UIntRoundTrip(0, WriteUInt(count) + (WriteStart(start, w) + more));
    UIntRoundTrip(count, WriteStart(start, w) + more);
    StartRoundTrip(start, w, more);
  }

  /** The widths that follow the smallest difference fill the front of
      the width array. */
  lemma WidthsRoundTrip(ws: seq<byte>, more: seq<byte>, prior: WidthArray)
    requires 0 < |ws| <= WidthSlots
    ensures ReadWidths(ws + more, |ws|, prior) == Success(Parsed(ws + prior[|ws|..], more))
  {
    var bs := ws + more;
    assert bs[..|ws|] == ws && bs[|ws|..] == more;
  }

  /** `initNextBlock` once each field of a header with miniblocks has
      been read. */
  lemma InitFromFields(d: Decoder, w: Word, bl: int32, nm: int32, count: int32, start: int, md: int,
                       ws: WidthArray, r1: seq<byte>, r2: seq<byte>, r3: seq<byte>, r4: seq<byte>,
                       r5: seq<byte>, r6: seq<byte>)
    requires ReadUInt(d.rest) == Success(Parsed(bl, r1))
    requires ReadUInt(r1) == Success(Parsed(nm, r2)) && nm > 0
    requires ReadUInt(r2) == Success(Parsed(count, r3))
    requires ReadStart(r3, w) == Success(Parsed(start, r4))
    requires ReadMinDelta(r4, w) == Success(Parsed(md, r5))
    requires ReadWidths(r5, nm, d.widths) == Success(Parsed(ws, r6))
    ensures InitNextBlock(d, w) == Success(d.(rest := r6, blockLength := bl, numMiniblocks := nm,
      miniblockLength := TruncDiv(bl, nm), remaining := count, position := -1, index := -1,
      current := start, minDelta := Some(md), widths := ws))
  {
  }

  /** `initNextBlock` on the header of a block with miniblocks. */
  lemma FullHeader(d: Decoder, bl: int32, ws: seq<nat>, count: int32, start: int, md: int,
                   more: seq<byte>, w: Word)
    requires 0 < |ws| <= WidthSlots && forall j | 0 <= j < |ws| :: ws[j] <= 64
    requires w.Holds(start) && (w.W32? ==> W64.Holds(md))
    requires d.rest == WriteUInt(bl) + (WriteUInt(|ws|) + (WriteUInt(count)
      + (WriteStart(start, w) + (WriteMinDelta(md, w) + (WidthBytes(ws) + more)))))
    ensures InitNextBlock(d, w).Success?
    ensures var d1 := InitNextBlock(d, w).value;
      && d1.rest == more && d1.remaining == count && d1.position == -1 && d1.index == -1
      && d1.current == start && d1.miniblockLength == TruncDiv(bl, |ws|)
      && d1.minDelta == Some(md) && d1.widths[..|ws|] == WidthBytes(ws)
  {
    var s5 := WidthBytes(ws) + more;
    var s4 := WriteMinDelta(md, w) + s5;
    var s3 := WriteStart(start, w) + s4;
    var s2 := WriteUInt(count) + s3;
    var s1 := WriteUInt(|ws|) + s2;
    UIntRoundTrip(bl, s1);
    UIntRoundTrip(|ws|, s2);
    UIntRoundTrip(count, s3);
    StartRoundTrip(start, w, s4);
    MinDeltaRoundTrip(md, w, s5);
    WidthsRoundTrip(WidthBytes(ws), more, d.widths);
    var widths: WidthArray := WidthBytes(ws) + d.widths[|ws|..];
    InitFromFields(d, w, bl, |ws|, count, start, md, widths, s1, s2, s3, s4, s5, more);
    assert widths[..|ws|] == WidthBytes(ws);
  }

  lemma BareLayoutBytes(l: Layout, w: Word, more: seq<byte>)
    requires l.Writable(w) && |l.widths| == 0
    ensures WriteLayout(l, w) + more
      == WriteUInt(l.blockLength) + (WriteUInt(0) + (WriteUInt(l.count) + (WriteStart(l.start, w) + more)))
  {
  }

  lemma Regroup(a: seq<byte>, b: seq<byte>, c: seq<byte>, d: seq<byte>, e: seq<byte>, f: seq<byte>,
                 g: seq<byte>, more: seq<byte>)
    ensures (a + b + c + d + (e + f + g)) + more == a + (b + (c + (d + (e + (f + (g + more))))))
  {
  }

  lemma FullLayoutBytes(l: Layout, w: Word, more: seq<byte>)
    requires l.Writable(w) && |l.widths| > 0
    ensures WriteLayout(l, w) + more
      == WriteUInt(l.blockLength) + (WriteUInt(|l.widths|) + (WriteUInt(l.count)
        + (WriteStart(l.start, w) + (WriteMinDelta(l.minDelta, w)
        + (WidthBytes(l.widths) + (PackedMiniblocks(l, 0, w) + more))))))
  {
    Regroup(WriteUInt(l.blockLength), WriteUInt(|l.widths|), WriteUInt(l.count), WriteStart(l.start, w),
            WriteMinDelta(l.minDelta, w), WidthBytes(l.widths), PackedMiniblocks(l, 0, w), more);
  }

  /** The fields `initNextBlock` sets from the block of `vs` laid out as `l`. */
  predicate BlockStarted(d: Decoder, l: Layout, vs: seq<int>, more: seq<byte>, w: Word)
    requires Shaped(l, vs, w)
  {
    && d.remaining == |vs| && d.position == -1 && d.index == -1 && d.current == vs[0]
    && (|vs| == 1 ==> d.rest == more)
    && (|vs| > 1 ==>
        && d.miniblockLength == l.miniblockLength && d.minDelta == Some(l.minDelta)
        && d.widths[..|l.widths|] == WidthBytes(l.widths)
        && d.rest == PackedMiniblocks(l, 0, w) + more)
  }

  lemma ReadHeader(d: Decoder, l: Layout, vs: seq<int>, more: seq<byte>, w: Word)
    requires Shaped(l, vs, w) && d.rest == WriteLayout(l, w) + more
    ensures InitNextBlock(d, w).Success?
    ensures BlockStarted(InitNextBlock(d, w).value, l, vs, more, w)
  {
    if |l.widths| == 0 {
      BareLayoutBytes(l, w, more);
      BareHeader(d, l.blockLength, l.count, l.start, more, w);
    } else {
      FullLayoutBytes(l, w, more);
      FullHeader(d, l.blockLength, l.widths, l.count, l.start, l.minDelta, PackedMiniblocks(l, 0, w) + more, w);
      DivModUnique(l.blockLength, |l.widths|, l.miniblockLength, 0);
    }
  }

  // ---------------------------------------------------------------------
  // One decode

  /** `decode` between blocks reads the next block's header first. */
  lemma StepBetween(d: Decoder, w: Word)
    requires d.remaining == 0 && InitNextBlock(d, w).Success?
    ensures DecodeStep(d, w) == DecodeStep(InitNextBlock(d, w).value, w)
  {
  }

  /** The first value of a block is the one in its header. */
  lemma StepFirst(d: Decoder, w: Word)
    requires d.remaining > 0 && d.position == -1
    ensures DecodeStep(d, w) == Success((ToSigned(d.current, w), d.(position := 0, remaining := d.remaining - 1)))
  {
  }

  /** `decode` when the loaded miniblock is used up. */
  lemma StepLoad(d: Decoder, w: Word)
    requires d.remaining > 0 && d.position != -1 && (d.index == -1 || d.position >= d.miniblockLength)
    requires NextMiniblock(d, w).Success? && SetCurrent(NextMiniblock(d, w).value, w).Success?
    ensures var c := SetCurrent(NextMiniblock(d, w).value, w).value;
      DecodeStep(d, w) == Success((ToSigned(c.current, w), c.(remaining := d.remaining - 1)))
  {
  }

  /** `decode` from the loaded miniblock. */
  lemma StepRead(d: Decoder, w: Word)
    requires d.remaining > 0 && d.position != -1 && d.index != -1 && d.position < d.miniblockLength
    requires SetCurrent(d, w).Success?
    ensures var c := SetCurrent(d, w).value;
      DecodeStep(d, w) == Success((ToSigned(c.current, w), c.(remaining := d.remaining - 1)))
  {
  }

  /** `initNextMiniBlock` unpacks the values written at the next width. */
  lemma NextMiniblockReads(d: Decoder, es: seq<int>, width: nat, tail: seq<byte>, w: Word)
    requires 0 <= d.index + 1 < WidthSlots && d.widths[d.index + 1] as int == width <= w.Bits()
    requires 0 < |es| <= BufferSlots && AllFit(es, width, w)
    requires |es| == if d.remaining < d.miniblockLength then d.remaining else d.miniblockLength
    requires d.rest == WritePackedInts(es, width, w) + tail
    ensures NextMiniblock(d, w).Success?
    ensures var d1 := NextMiniblock(d, w).value;
      && d1 == d.(rest := tail, buffer := d1.buffer, index := d.index + 1, position := 0)
      && d1.buffer[..|es|] == es
  {
    PackedIntsRoundTripFitting(es, width, w, tail);
  }

  lemma PackedMiniblocksCons(l: Layout, j: nat, more: seq<byte>, w: Word)
    requires l.Writable(w) && 1 <= l.count && j < |l.widths|
    ensures PackedMiniblocks(l, j, w) + more
      == WritePackedInts(MiniblockEntries(l, j), l.widths[j], w) + (PackedMiniblocks(l, j + 1, w) + more)
  {
  }

  /** What `decode` needs to load a miniblock holding `es`, packed at
      `width` ahead of `tail`, and return its first value. */
  predicate LoadReady(d: Decoder, es: seq<int>, width: nat, tail: seq<byte>, md: int, w: Word) {
    && d.remaining > 0 && d.position != -1 && (d.index == -1 || d.position >= d.miniblockLength)
    && 0 <= d.index + 1 < WidthSlots && d.widths[d.index + 1] as int == width <= w.Bits()
    && 0 < |es| <= BufferSlots && AllFit(es, width, w)
    && |es| == (if d.remaining < d.miniblockLength then d.remaining else d.miniblockLength)
    && d.rest == WritePackedInts(es, width, w) + tail
    && d.minDelta == Some(md)
  }

  /** `d1` is `d` after loading `es` and returning its first slot. */
  predicate Loaded(d: Decoder, d1: Decoder, es: seq<int>, tail: seq<byte>, md: int, w: Word) {
    && 0 < |es| <= |d1.buffer| && d1.buffer[..|es|] == es
    && d1.rest == tail && d1.index == d.index + 1 && d1.position == 1
    && d1.current == Accumulate(d.current, Accumulate(ToUnsigned(es[0], w), md, w), w)
    && d1.remaining == d.remaining - 1 && d1.miniblockLength == d.miniblockLength
    && d1.minDelta == d.minDelta && d1.widths == d.widths
  }

  /** `decode` past the loaded miniblock: `initNextMiniBlock`, then the
      first slot of the new one. */
  lemma LoadStep(d: Decoder, es: seq<int>, width: nat, tail: seq<byte>, md: int, w: Word) returns (d1: Decoder)
    requires LoadReady(d, es, width, tail, md, w)
    ensures DecodeStep(d, w) == Success((ToSigned(d1.current, w), d1)) && Loaded(d, d1, es, tail, md, w)
  {
    NextMiniblockReads(d, es, width, tail, w);
    var loaded := NextMiniblock(d, w).value;
    assert loaded.buffer[0] == loaded.buffer[..|es|][0] == es[0];
    StepLoad(d, w);
    d1 := SetCurrent(loaded, w).value.(remaining := d.remaining - 1);
  }

  /** What `decode` needs to return the next slot of the loaded miniblock
      `es`. */
  predicate ReadReady(d: Decoder, es: seq<int>, md: int) {
    && d.remaining > 0 && d.position != -1 && d.index != -1 && 0 <= d.position < d.miniblockLength
    && d.position < |es| <= |d.buffer| && d.buffer[..|es|] == es && d.minDelta == Some(md)
  }

  /** `d1` is `d` after returning the slot at its position. */
  predicate ReadOne(d: Decoder, d1: Decoder, es: seq<int>, md: int, w: Word) {
    && 0 <= d.position < |es|
    && d1.current == Accumulate(d.current, Accumulate(ToUnsigned(es[d.position], w), md, w), w)
    && d1.rest == d.rest && d1.buffer == d.buffer && d1.index == d.index
    && d1.position == d.position + 1 && d1.remaining == d.remaining - 1
    && d1.miniblockLength == d.miniblockLength && d1.minDelta == d.minDelta && d1.widths == d.widths
  }

  /** `decode` within the loaded miniblock. */
  lemma ReadStep(d: Decoder, es: seq<int>, md: int, w: Word) returns (d1: Decoder)
    requires ReadReady(d, es, md)
    ensures DecodeStep(d, w) == Success((ToSigned(d1.current, w), d1)) && ReadOne(d, d1, es, md, w)
  {
    assert d.buffer[d.position] == d.buffer[..|es|][d.position];
    StepRead(d, w);
    d1 := SetCurrent(d, w).value.(remaining := d.remaining - 1);
  }

  lemma SlotOf(es: seq<int>, frame: seq<int>, from: nat, p: nat)
    requires from + |es| <= |frame| && es == frame[from..from + |es|] && p < |es|
    ensures es[p] == frame[from + p]
  {
  }

  /** Slot `p` of miniblock `j` is frame slot `j * miniblockLength + p`. */
  lemma EntryOf(l: Layout, j: nat, p: nat)
    requires 1 <= l.count && j < |l.widths| && |l.widths| * l.miniblockLength <= |l.frame|
    requires p < |MiniblockEntries(l, j)|
    ensures j * l.miniblockLength + p < |l.frame|
    ensures MiniblockEntries(l, j)[p] == l.frame[j * l.miniblockLength + p]
  {
    MulNat(j, l.miniblockLength);
    MulBound(j, |l.widths|, l.miniblockLength);
    SlotOf(MiniblockEntries(l, j), l.frame, j * l.miniblockLength, p);
  }

  // ---------------------------------------------------------------------
  // Within a block

  /** The decoder follows the block of `vs` laid out as `l`, with `k`
      values returned: the accumulator is congruent to the last one. */
  predicate Tracking(d: Decoder, l: Layout, vs: seq<int>, k: nat, w: Word)
    requires 1 <= k <= |vs| && l.Writable(w) && |l.widths| <= WidthSlots
  {
    && d.remaining == |vs| - k
    && d.miniblockLength == l.miniblockLength && d.minDelta == Some(l.minDelta)
    && d.widths[..|l.widths|] == WidthBytes(l.widths)
    && Congruent(d.current, vs[k - 1], w)
  }

  /** No miniblock is loaded yet, and all of them are unread. */
  predicate Unloaded(d: Decoder, l: Layout, more: seq<byte>, w: Word)
    requires l.Writable(w)
  {
    d.index == -1 && d.position == 0 && d.rest == PackedMiniblocks(l, 0, w) + more
  }

  /** Miniblock `j` is loaded and holds the `k`-th value (counting the
      header's as the first). */
  predicate Reading(d: Decoder, l: Layout, k: nat, j: nat, more: seq<byte>, w: Word)
    requires l.Writable(w) && 1 <= l.count && l.miniblockLength <= BufferSlots
  {
    var ml := l.miniblockLength;
    && j < |l.widths| && d.index == j
    && j * ml < k - 1 <= j * ml + ml
    && d.position == k - 1 - j * ml
    && d.rest == PackedMiniblocks(l, j + 1, w) + more
    && d.buffer[..|MiniblockEntries(l, j)|] == MiniblockEntries(l, j)
  }

  /** The decoder midway through the block of `vs` laid out as `l`, with
      `k` values returned: the accumulator is congruent to the last one,
      and the miniblock holding it is loaded. */
  predicate InBlock(d: Decoder, l: Layout, vs: seq<int>, k: nat, more: seq<byte>, w: Word)
    requires Shaped(l, vs, w) && |vs| > 1
  {
    && 1 <= k <= |vs| && Tracking(d, l, vs, k, w)
    && (k == 1 ==> Unloaded(d, l, more, w))
    && (k > 1 ==> d.index >= 0 && Reading(d, l, k, d.index, more, w))
  }

  lemma CongruenceAt(l: Layout, vs: seq<int>, i: nat, prev: int, next: int, w: Word)
    requires |vs| - 1 <= |l.frame| && Congruences(l, vs, w)
    requires i < |vs| - 1 && prev == vs[i] && next == vs[i + 1]
    ensures Congruent(ToUnsigned(l.frame[i], w) + l.minDelta, next - prev, w)
  {
  }

  /** Past the loaded miniblock, the next one holds the next value. */
  lemma NextIndex(d: Decoder, l: Layout, vs: seq<int>, k: nat, more: seq<byte>, w: Word)
    requires Shaped(l, vs, w) && |vs| > 1 && InBlock(d, l, vs, k, more, w)
    requires 1 < k < |vs| && d.position >= l.miniblockLength
    ensures d.index + 1 < |l.widths| && (d.index + 1) * l.miniblockLength == k - 1
  {
    MulSucc(d.index, l.miniblockLength);
    MulLess(d.index + 1, |l.widths|, l.miniblockLength);
  }

  /** The second value, and each value at the head of a miniblock, is the
      first of miniblock `j`, the one after the loaded one. */
  lemma AcrossPlace(d: Decoder, l: Layout, vs: seq<int>, k: nat, j: nat, more: seq<byte>, w: Word)
    requires Shaped(l, vs, w) && |vs| > 1 && InBlock(d, l, vs, k, more, w)
    requires k < |vs| && (k == 1 || d.position >= l.miniblockLength) && j == d.index + 1
    ensures j < |l.widths| && j * l.miniblockLength == k - 1 && d.rest == PackedMiniblocks(l, j, w) + more
    ensures d.position != -1 && (d.index == -1 || d.position >= l.miniblockLength)
  {
    if k > 1 {
      NextIndex(d, l, vs, k, more, w);
    }
  }

  /** `decode` is ready to load miniblock `j`. */
  lemma AcrossReady(d: Decoder, l: Layout, vs: seq<int>, k: nat, j: nat, more: seq<byte>, w: Word)
    requires Shaped(l, vs, w) && |vs| > 1 && Fitting(l, w) && 1 <= k < |vs| && Tracking(d, l, vs, k, w)
    requires j == d.index + 1 && j < |l.widths| && j * l.miniblockLength == k - 1
    requires d.rest == PackedMiniblocks(l, j, w) + more
    requires d.position != -1 && (d.index == -1 || d.position >= l.miniblockLength)
    ensures LoadReady(d, MiniblockEntries(l, j), l.widths[j], PackedMiniblocks(l, j + 1, w) + more, l.minDelta, w)
  {
    assert d.widths[j] == d.widths[..|l.widths|][j] == WidthBytes(l.widths)[j];
    PackedMiniblocksCons(l, j, more, w);
  }

  /** Slot `p` of miniblock `j`, added to an accumulator congruent to the
      value before it, gives the value at `k`. */
  lemma SlotValue(l: Layout, vs: seq<int>, k: nat, j: nat, p: nat, cur: int, c1: int, w: Word)
    requires Shaped(l, vs, w) && |vs| > 1 && Congruences(l, vs, w)
    requires 1 <= k < |vs| && Congruent(cur, vs[k - 1], w)
    requires j < |l.widths| && j * l.miniblockLength + p == k - 1 && p < |MiniblockEntries(l, j)|
    requires c1 == Accumulate(cur, Accumulate(ToUnsigned(MiniblockEntries(l, j)[p], w), l.minDelta, w), w)
    ensures Congruent(c1, vs[k], w) && ToSigned(c1, w) == vs[k]
  {
    EntryOf(l, j, p);
    CongruenceAt(l, vs, k - 1, vs[k - 1], vs[k], w);
    AccumulateStep(cur, vs[k - 1], l.frame[k - 1], l.minDelta, vs[k], w);
    CongruentSigned(c1, vs[k], w);
  }

  /** The decoder after returning value `k` from miniblock `j`. */
  lemma StillInBlock(d1: Decoder, l: Layout, vs: seq<int>, k: nat, j: nat, more: seq<byte>, w: Word)
    requires Shaped(l, vs, w) && |vs| > 1 && 1 <= k < |vs|
    requires Tracking(d1, l, vs, k + 1, w) && Reading(d1, l, k + 1, j, more, w)
    ensures InBlock(d1, l, vs, k + 1, more, w)
  {
  }

  /** After loading, the accumulator holds the value at the head of the
      miniblock. */
  lemma AcrossDone(d: Decoder, d1: Decoder, l: Layout, vs: seq<int>, k: nat, j: nat, more: seq<byte>, w: Word)
    requires Shaped(l, vs, w) && |vs| > 1 && Congruences(l, vs, w) && 1 <= k < |vs| && Tracking(d, l, vs, k, w)
    requires j == d.index + 1 && j < |l.widths| && j * l.miniblockLength == k - 1
    requires Loaded(d, d1, MiniblockEntries(l, j), PackedMiniblocks(l, j + 1, w) + more, l.minDelta, w)
    ensures ToSigned(d1.current, w) == vs[k] && Tracking(d1, l, vs, k + 1, w) && Reading(d1, l, k + 1, j, more, w)
  {
    SlotValue(l, vs, k, j, 0, d.current, d1.current, w);
  }

  /** Within the loaded miniblock, the next slot holds the next value. */
  lemma WithinReady(d: Decoder, l: Layout, vs: seq<int>, k: nat, more: seq<byte>, w: Word)
    requires Shaped(l, vs, w) && |vs| > 1 && InBlock(d, l, vs, k, more, w)
    requires 1 < k < |vs| && d.position < l.miniblockLength
    ensures ReadReady(d, MiniblockEntries(l, d.index), l.minDelta)
  {
  }

  /** After reading, the accumulator holds the next value. */
  lemma WithinDone(d: Decoder, d1: Decoder, l: Layout, vs: seq<int>, k: nat, j: nat, more: seq<byte>, w: Word)
    requires Shaped(l, vs, w) && |vs| > 1 && Congruences(l, vs, w) && 1 < k < |vs| && Tracking(d, l, vs, k, w)
    requires Reading(d, l, k, j, more, w) && d.position < l.miniblockLength
    requires ReadOne(d, d1, MiniblockEntries(l, j), l.minDelta, w)
    ensures ToSigned(d1.current, w) == vs[k] && Tracking(d1, l, vs, k + 1, w) && Reading(d1, l, k + 1, j, more, w)
  {
    SlotValue(l, vs, k, j, d.position, d.current, d1.current, w);
  }

  /** One `decode` midway through a block returns the next value. */
  lemma DecodeNext(d: Decoder, l: Layout, vs: seq<int>, k: nat, more: seq<byte>, w: Word) returns (d1: Decoder)
    requires Represents(l, vs, w) && |vs| > 1 && InBlock(d, l, vs, k, more, w) && k < |vs|
    ensures DecodeStep(d, w) == Success((vs[k], d1)) && InBlock(d1, l, vs, k + 1, more, w)
  {
    var j: nat;
    if k == 1 || d.position >= l.miniblockLength {
      j := d.index + 1;
      AcrossPlace(d, l, vs, k, j, more, w);
      AcrossReady(d, l, vs, k, j, more, w);
      d1 := LoadStep(d, MiniblockEntries(l, j), l.widths[j], PackedMiniblocks(l, j + 1, w) + more, l.minDelta, w);
      AcrossDone(d, d1, l, vs, k, j, more, w);
    } else {
      j := d.index;
      WithinReady(d, l, vs, k, more, w);
      d1 := ReadStep(d, MiniblockEntries(l, j), l.minDelta, w);
      WithinDone(d, d1, l, vs, k, j, more, w);
    }
    StillInBlock(d1, l, vs, k, j, more, w);
  }

  /** The miniblocks past the last value are empty. */
  lemma {:induction false} PackedTailEmpty(l: Layout, j: nat, w: Word)
    requires l.Writable(w) && j <= |l.widths| && l.count - 1 <= j * l.miniblockLength
    ensures PackedMiniblocks(l, j, w) == []
    decreases |l.widths| - j
  {
    if j < |l.widths| {
      MulSucc(j, l.miniblockLength);
      PackedTailEmpty(l, j + 1, w);
    }
  }

  /** `n` decodes from `d` return `vs` and leave the decoder between
      blocks with `more` unread. */
  predicate DecodesTo(d: Decoder, vs: seq<int>, more: seq<byte>, w: Word) {
    var r := DecodeN(Step(w), d, |vs|);
    r.Success? && r.value.0 == vs && r.value.1.remaining == 0 && r.value.1.rest == more
  }

  lemma DecodesNothing(d: Decoder, more: seq<byte>, w: Word)
    requires d.remaining == 0 && d.rest == more
    ensures DecodesTo(d, [], more, w)
  {
  }

  /** A decode followed by decodes of `xs` decodes `[x] + xs`. */
  lemma DecodesCons(d: Decoder, x: int, d1: Decoder, xs: seq<int>, more: seq<byte>, w: Word)
    requires DecodeStep(d, w) == Success((x, d1)) && DecodesTo(d1, xs, more, w)
    ensures DecodesTo(d, [x] + xs, more, w)
  {
    var end := DecodeN(Step(w), d1, |xs|).value;
    DecodeNCons(Step(w), d, |xs| + 1, x, d1, xs, end.1);
  }

  /** After the last value of a block, the decoder is between blocks. */
  lemma BlockEnd(d: Decoder, l: Layout, vs: seq<int>, more: seq<byte>, w: Word)
    requires Shaped(l, vs, w) && |vs| > 1 && InBlock(d, l, vs, |vs|, more, w)
    ensures DecodesTo(d, [], more, w)
  {
    MulSucc(d.index, l.miniblockLength);
    PackedTailEmpty(l, d.index + 1, w);
    DecodesNothing(d, more, w);
  }

  lemma {:induction false} DecodeRestOfBlock(d: Decoder, l: Layout, vs: seq<int>, k: nat, more: seq<byte>, w: Word)
    requires Represents(l, vs, w) && |vs| > 1 && InBlock(d, l, vs, k, more, w)
    ensures DecodesTo(d, vs[k..], more, w)
    decreases |vs| - k
  {
    if k == |vs| {
      BlockEnd(d, l, vs, more, w);
      assert vs[k..] == [];
    } else {
      var d1 := DecodeNext(d, l, vs, k, more, w);
      DecodeRestOfBlock(d1, l, vs, k + 1, more, w);
      DecodesCons(d, vs[k], d1, vs[k + 1..], more, w);
      assert [vs[k]] + vs[k + 1..] == vs[k..];
    }
  }

  /** The first `decode` of a block reads its header and returns the
      header's first value. */
  lemma FirstValue(d: Decoder, l: Layout, vs: seq<int>, more: seq<byte>, w: Word) returns (d1: Decoder)
    requires Shaped(l, vs, w) && d.remaining == 0 && d.rest == WriteLayout(l, w) + more
    ensures DecodeStep(d, w) == Success((vs[0], d1))
    ensures |vs| == 1 ==> d1.remaining == 0 && d1.rest == more
    ensures |vs| > 1 ==> InBlock(d1, l, vs, 1, more, w)
  {
    ReadHeader(d, l, vs, more, w);
    var d0 := InitNextBlock(d, w).value;
    StepBetween(d, w);
    StepFirst(d0, w);
    CongruentSigned(vs[0], vs[0], w);
    d1 := d0.(position := 0, remaining := |vs| - 1);
  }

  /** A block that holds `vs` decodes to `vs`, from any decoder between
      blocks, leaving what follows it unread. */
  lemma BlockRoundTrip(d: Decoder, l: Layout, vs: seq<int>, more: seq<byte>, w: Word)
    requires Represents(l, vs, w) && d.remaining == 0 && d.rest == WriteLayout(l, w) + more
    ensures DecodesTo(d, vs, more, w)
  {
    var d1 := FirstValue(d, l, vs, more, w);
    if |vs| == 1 {
      DecodesNothing(d1, more, w);
    } else {
      DecodeRestOfBlock(d1, l, vs, 1, more, w);
    }
    DecodesCons(d, vs[0], d1, vs[1..], more, w);
    assert [vs[0]] + vs[1..] == vs;
  }

  // ---------------------------------------------------------------------
  // Streams of blocks

  /** The block the encoder writes for a group decodes to the group. */
  lemma BlockDecodes(d: Decoder, vs: seq<int>, more: seq<byte>, w: Word)
    requires Group(vs, w) && d.remaining == 0 && d.rest == Block(vs, w) + more
    ensures DecodesTo(d, vs, more, w)
  {
    var frame := ReferenceFrame(Entries(vs, w));
    var ml := BestMiniblockLength(vs, frame, w);
    LayoutRepresents(vs, frame, ml, w);
    BlockRoundTrip(d, LayoutOf(vs, frame, ml, w), vs, more, w);
  }

  /** Where `n` decodes from `d` end. */
  lemma DecodesEnd(d: Decoder, xs: seq<int>, more: seq<byte>, w: Word) returns (d1: Decoder)
    requires DecodesTo(d, xs, more, w)
    ensures DecodeN(Step(w), d, |xs|) == Success((xs, d1)) && d1.remaining == 0 && d1.rest == more
  {
    d1 := DecodeN(Step(w), d, |xs|).value.1;
  }

  lemma DecodesJoin(d: Decoder, xs: seq<int>, d1: Decoder, ys: seq<int>, more: seq<byte>, w: Word)
    requires DecodeN(Step(w), d, |xs|) == Success((xs, d1)) && DecodesTo(d1, ys, more, w)
    ensures DecodesTo(d, xs + ys, more, w)
  {
    var end := DecodeN(Step(w), d1, |ys|).value;
    DecodeNThen(Step(w), d, xs, d1, ys, end.1);
  }

  /** The groups but the last are groups too. */
  lemma FrontGroups(groups: seq<seq<int>>, front: seq<seq<int>>, w: Word)
    requires |groups| > 0 && front == groups[..|groups| - 1]
    requires forall i | 0 <= i < |groups| :: Group(groups[i], w)
    ensures forall i | 0 <= i < |front| :: Group(front[i], w)
  {
  }

  /** The last group's block comes last in the body. */
  lemma BodySnoc(groups: seq<seq<int>>, more: seq<byte>, w: Word)
    requires |groups| > 0 && forall i | 0 <= i < |groups| :: Group(groups[i], w)
    ensures Body(groups, w) + more == Body(groups[..|groups| - 1], w) + (Block(groups[|groups| - 1], w) + more)
  {
    FrontGroups(groups, groups[..|groups| - 1], w);
    AppendAssoc(Body(groups[..|groups| - 1], w), Block(groups[|groups| - 1], w), more);
  }

  /** The blocks of the groups decode to the groups' values, one block
      after the other. */
  lemma {:induction false} StreamRoundTrip(d: Decoder, groups: seq<seq<int>>, more: seq<byte>, w: Word)
    requires forall i | 0 <= i < |groups| :: Group(groups[i], w)
    requires d.remaining == 0 && d.rest == Body(groups, w) + more
    ensures DecodesTo(d, Flatten(groups), more, w)
  {
    if |groups| == 0 {
      DecodesNothing(d, more, w);
    } else {
      var front, last := groups[..|groups| - 1], groups[|groups| - 1];
      FrontGroups(groups, front, w);
      BodySnoc(groups, more, w);
      StreamRoundTrip(d, front, Block(last, w) + more, w);
      var mid := DecodesEnd(d, Flatten(front), Block(last, w) + more, w);
      BlockDecodes(mid, last, more, w);
      DecodesJoin(d, Flatten(front), mid, last, more, w);
    }
  }
}
