/** What the delta encoder promises, for ints (`W32`) and longs (`W64`)
    alike: the values are cut into blocks of 129 in order, the last block
    holding the rest (`FlushedAreChunks`); the stream it writes decodes
    back to the values (`RoundTrip`); and each miniblock's width is the
    largest bit width of the entries it packs, which the Java's stale
    reference frame breaks (`StaleFrameWidensMiniblock`). */
module PackedDeltaProperties {
  import opened Wrappers
  import opened Words
  import opened Bytes
  import opened BitStreams
  import opened Seqs
  import opened Encoding
  import opened PackedDelta
  import opened PackedDeltaDecoding

  /** The encoder `e` after encoding `vs`. */
  function EncodeOnto(e: Encoder, vs: seq<int>, w: Word): (r: Encoder)
    requires e.Valid(w) && AllHold(vs, w)
    ensures r.Valid(w) && r.numValues == e.numValues + |vs| && r.startFrame == e.startFrame
  {
    if |vs| == 0 then e
    else Encode(EncodeOnto(e, vs[..|vs| - 1], w), vs[|vs| - 1], w)
  }

  /** The encoder after encoding `vs` from a fresh one. */
  function EncodeAll(vs: seq<int>, w: Word): (e: Encoder)
    requires AllHold(vs, w)
    ensures e.Valid(w) && e.numValues == |vs| && e.startFrame == ZeroFrame
  {
    EncodeOnto(NewEncoder, vs, w)
  }

  /** The encoder holds `vs`: full blocks of 129 values already flushed,
      then the buffered values, never empty once a value was encoded; the
      counters agree. */
  predicate Holds(e: Encoder, vs: seq<int>, w: Word) {
    && e.Valid(w)
    && Flatten(e.flushed) + e.values == vs
    && e.numValues == |vs| && e.numEncodedValues == |Flatten(e.flushed)|
    && (forall i | 0 <= i < |e.flushed| :: |e.flushed[i]| == MaxBlockValues)
    && (|vs| > 0 ==> |e.values| > 0)
  }

  /** `encode` keeps the encoder holding the values, with the new one last. */
  lemma EncodeHolds(e: Encoder, vs: seq<int>, v: int, w: Word)
    requires Holds(e, vs, w) && w.Holds(v)
    ensures Holds(Encode(e, v, w), vs + [v], w)
  {
    var r := Encode(e, v, w);
    if |e.values| == MaxBlockValues {
      FlattenSnoc(e.flushed, e.values);
      assert Flatten(r.flushed) + r.values == vs + [v];
    } else {
      AppendAssoc(Flatten(e.flushed), e.values, [v]);
    }
  }

  /** An encoder holding nothing, fresh or reset, holds `vs` once it has
      encoded them. */
  lemma {:induction false} EncodeOntoHolds(e: Encoder, vs: seq<int>, w: Word)
    requires Holds(e, [], w) && AllHold(vs, w)
    ensures Holds(EncodeOnto(e, vs, w), vs, w)
  {
    if |vs| > 0 {
      var front := vs[..|vs| - 1];
      EncodeOntoHolds(e, front, w);
      EncodeHolds(EncodeOnto(e, front, w), front, vs[|vs| - 1], w);
      SplitLast(vs);
    }
  }

  lemma EncodeAllHolds(vs: seq<int>, w: Word)
    requires AllHold(vs, w)
    ensures Holds(EncodeAll(vs, w), vs, w)
  {
    EncodeOntoHolds(NewEncoder, vs, w);
  }

  /** A reset encoder holds nothing and keeps the frame. */
  lemma ResetHoldsNothing(e: Encoder, w: Word)
    requires e.Valid(w)
    ensures Holds(Reset(e, w), [], w) && Reset(e, w).startFrame == CurrentFrame(e, w)
  {
  }

  // ---------------------------------------------------------------------
  // The blocks are the values cut every 129

  /** `vs` cut into groups of 129, the last one holding the rest. */
  function Chunks(vs: seq<int>): (r: seq<seq<int>>)
    decreases |vs|
  {
    if |vs| == 0 then []
    else if |vs| <= MaxBlockValues then [vs]
    else [vs[..MaxBlockValues]] + Chunks(vs[MaxBlockValues..])
  }

  /** Full groups followed by a last partial one are the chunks of their
      values. */
  lemma {:induction false} ChunksOfFull(groups: seq<seq<int>>, last: seq<int>)
    requires forall i | 0 <= i < |groups| :: |groups[i]| == MaxBlockValues
    requires 0 < |last| <= MaxBlockValues
    ensures Chunks(Flatten(groups) + last) == groups + [last]
    decreases |groups|
  {
    if |groups| == 0 {
      assert Flatten(groups) + last == last;
    } else {
      var tail := groups[1..];
      FlattenCons(groups);
      AppendAssoc(groups[0], Flatten(tail), last);
      var x := Flatten(groups) + last;
      assert x[..MaxBlockValues] == groups[0];
      assert x[MaxBlockValues..] == Flatten(tail) + last;
      ChunksOfFull(tail, last);
      assert groups + [last] == [groups[0]] + (tail + [last]);
    }
  }

  /** After `finish`, the flushed blocks are the values cut every 129. */
  lemma FlushedAreChunks(vs: seq<int>, w: Word)
    requires AllHold(vs, w)
    ensures Finish(EncodeAll(vs, w), w).flushed == Chunks(vs)
  {
    var e := EncodeAll(vs, w);
    EncodeAllHolds(vs, w);
    if |vs| > 0 {
      ChunksOfFull(e.flushed, e.values);
    }
  }

  /** `finish` flushes what is buffered, so the blocks hold all the values. */
  lemma FinishFlushesAll(e: Encoder, vs: seq<int>, w: Word)
    requires Holds(e, vs, w)
    ensures Flatten(Finish(e, w).flushed) == vs && Finish(e, w).numValues == |vs|
  {
    if |e.values| > 0 {
      FlattenSnoc(e.flushed, e.values);
    } else {
      assert Flatten(e.flushed) + [] == Flatten(e.flushed);
    }
  }

  lemma FinishIdempotent(e: Encoder, w: Word)
    requires e.Valid(w)
    ensures Finish(Finish(e, w), w) == Finish(e, w)
  {
  }

  // ---------------------------------------------------------------------
  // Round trip

  /** What `writeTo` writes for an encoder holding `vs`: the count, then
      the blocks of groups whose values are `vs`, from the frame the
      encoder started with. */
  lemma WrittenBytes(e: Encoder, vs: seq<int>, w: Word)
    requires Holds(e, vs, w)
    ensures Finish(e, w).Valid(w) && Flatten(Finish(e, w).flushed) == vs
    ensures WriteTo(e, w) == WriteCount(|vs|) + BlocksAsWritten(e.startFrame, Finish(e, w).flushed, w).0
    ensures CorrectedWriteTo(e, w) == WriteCount(|vs|) + Body(Finish(e, w).flushed, w)
  {
    FinishFlushesAll(e, vs, w);
  }

  /** A fresh decoder reads the count and is left at the blocks. */
  lemma DecoderAfterCount(n: nat, body: seq<byte>, w: Word)
    requires n < TWO_31
    ensures NewDecoder(WriteCount(n) + body, w).Success?
    ensures NewDecoder(WriteCount(n) + body, w).value.0 == n
    ensures NewDecoder(WriteCount(n) + body, w).value.1.rest == body
    ensures NewDecoder(WriteCount(n) + body, w).value.1.remaining == 0
  {
    CountRoundTrip(n, body);
  }

  /** The last group's block, as the Java writes it, comes last. */
  lemma BlocksAsWrittenSnoc(frame: seq<int>, groups: seq<seq<int>>, front: seq<seq<int>>, more: seq<byte>, w: Word)
    requires |frame| == BufferSlots && AllHold(frame, w)
    requires |groups| > 0 && forall i | 0 <= i < |groups| :: Group(groups[i], w)
    requires front == groups[..|groups| - 1]
    ensures forall i | 0 <= i < |front| :: Group(front[i], w)
    ensures var f := BlocksAsWritten(frame, front, w);
      BlocksAsWritten(frame, groups, w).0 + more
        == f.0 + (FlushAsWritten(f.1, groups[|groups| - 1], w).0 + more)
  {
    FrontGroups(groups, front, w);
    var f := BlocksAsWritten(frame, front, w);
    AppendAssoc(f.0, FlushAsWritten(f.1, groups[|groups| - 1], w).0, more);
  }

  /** The blocks the Java writes for the groups, from any frame, decode
      to the groups' values, one block after the other. */
  lemma {:induction false} BlocksAsWrittenDecode(d: Decoder, frame: seq<int>, groups: seq<seq<int>>,
                                                 more: seq<byte>, w: Word)
    requires |frame| == BufferSlots && AllHold(frame, w)
    requires forall i | 0 <= i < |groups| :: Group(groups[i], w)
    requires d.remaining == 0 && d.rest == BlocksAsWritten(frame, groups, w).0 + more
    ensures DecodesTo(d, Flatten(groups), more, w)
  {
    if |groups| == 0 {
      DecodesNothing(d, more, w);
    } else {
      var front, last := groups[..|groups| - 1], groups[|groups| - 1];
      BlocksAsWrittenSnoc(frame, groups, front, more, w);
      var f := BlocksAsWritten(frame, front, w);
      var tail := FlushAsWritten(f.1, last, w).0 + more;
      BlocksAsWrittenDecode(d, frame, front, tail, w);
      var mid := DecodesEnd(d, Flatten(front), tail, w);
      AsWrittenDecodes(mid, f.1, last, more, w);
      DecodesJoin(d, Flatten(front), mid, last, more, w);
    }
  }

  /** `bs + more` reads back as `vs`: a fresh decoder reads the count
      `|vs|`, and that many decodes return `vs` and stop at `more`. */
  predicate ReadsBack(bs: seq<byte>, vs: seq<int>, more: seq<byte>, w: Word) {
    var r := NewDecoder(bs + more, w);
    r.Success? && r.value.0 == |vs| && DecodesTo(r.value.1, vs, more, w)
  }

  /** The count followed by the blocks the Java writes for the groups
      reads back as the groups' values. */
  lemma CountThenBlocksDecode(frame: seq<int>, groups: seq<seq<int>>, more: seq<byte>, w: Word)
    requires |frame| == BufferSlots && AllHold(frame, w)
    requires forall i | 0 <= i < |groups| :: Group(groups[i], w)
    requires |Flatten(groups)| < TWO_31
    ensures ReadsBack(WriteCount(|Flatten(groups)|) + BlocksAsWritten(frame, groups, w).0, Flatten(groups), more, w)
  {
    var n := |Flatten(groups)|;
    var body := BlocksAsWritten(frame, groups, w).0;
    AppendAssoc(WriteCount(n), body, more);
    DecoderAfterCount(n, body + more, w);
    var d := NewDecoder(WriteCount(n) + (body + more), w).value.1;
    BlocksAsWrittenDecode(d, frame, groups, more, w);
  }

  /** What `writeTo` writes for an encoder holding `vs`, followed by
      anything, reads back as `vs`. */
  lemma WrittenDecodes(e: Encoder, vs: seq<int>, more: seq<byte>, w: Word)
    requires Holds(e, vs, w) && |vs| < TWO_31
    ensures ReadsBack(WriteTo(e, w), vs, more, w)
  {
    WrittenBytes(e, vs, w);
    WrittenGroupsDecode(e.startFrame, Finish(e, w).flushed, vs, WriteTo(e, w), more, w);
  }

  lemma WrittenGroupsDecode(frame: seq<int>, groups: seq<seq<int>>, vs: seq<int>, bs: seq<byte>,
                            more: seq<byte>, w: Word)
    requires |frame| == BufferSlots && AllHold(frame, w)
    requires forall i | 0 <= i < |groups| :: Group(groups[i], w)
    requires Flatten(groups) == vs && |vs| < TWO_31
    requires bs == WriteCount(|vs|) + BlocksAsWritten(frame, groups, w).0
    ensures ReadsBack(bs, vs, more, w)
  {
    CountThenBlocksDecode(frame, groups, more, w);
  }

  /** `bs` is a stream of `vs`: a fresh decoder reads the count `|vs|`,
      and that many decodes return `vs` in order and read every byte. */
  predicate StreamOf(bs: seq<byte>, vs: seq<int>, w: Word) {
    var r := NewDecoder(bs, w);
    && r.Success? && r.value.0 == |vs|
    && var d := r.value.1;
       && DecodeN(Step(w), d, |vs|).Success?
       && DecodeN(Step(w), d, |vs|).value.0 == vs
       && DecodeN(Step(w), d, |vs|).value.1.rest == []
  }

  /** Decoding what an encoder holding nothing, fresh or reset, writes
      after encoding `vs` gives back `vs`, whatever frame an earlier block
      left behind. */
  lemma RoundTrip(e: Encoder, vs: seq<int>, w: Word)
    requires Holds(e, [], w) && AllHold(vs, w) && |vs| < TWO_31
    ensures StreamOf(WriteTo(EncodeOnto(e, vs, w), w), vs, w)
  {
    var r := EncodeOnto(e, vs, w);
    EncodeOntoHolds(e, vs, w);
    WrittenDecodes(r, vs, [], w);
    assert WriteTo(r, w) + [] == WriteTo(r, w);
  }

  /** `IntPackedDelta`: Java ints come back as they went in, from a fresh
      encoder and from one reset after earlier use. */
  lemma IntRoundTrip(prior: Encoder, vs: seq<int32>)
    requires prior.Valid(W32) && |vs| < TWO_31
    ensures var xs := seq(|vs|, k requires 0 <= k < |vs| => vs[k] as int);
      && StreamOf(WriteTo(EncodeAll(xs, W32), W32), xs, W32)
      && StreamOf(WriteTo(EncodeOnto(Reset(prior, W32), xs, W32), W32), xs, W32)
  {
    var xs := seq(|vs|, k requires 0 <= k < |vs| => vs[k] as int);
    RoundTrip(NewEncoder, xs, W32);
    ResetHoldsNothing(prior, W32);
    RoundTrip(Reset(prior, W32), xs, W32);
  }

  /** `LongPackedDelta`: Java longs come back as they went in, from a
      fresh encoder and from one reset after earlier use. */
  lemma LongRoundTrip(prior: Encoder, vs: seq<int64>)
    requires prior.Valid(W64) && |vs| < TWO_31
    ensures var xs := seq(|vs|, k requires 0 <= k < |vs| => vs[k] as int);
      && StreamOf(WriteTo(EncodeAll(xs, W64), W64), xs, W64)
      && StreamOf(WriteTo(EncodeOnto(Reset(prior, W64), xs, W64), W64), xs, W64)
  {
    var xs := seq(|vs|, k requires 0 <= k < |vs| => vs[k] as int);
    RoundTrip(NewEncoder, xs, W64);
    ResetHoldsNothing(prior, W64);
    RoundTrip(Reset(prior, W64), xs, W64);
  }

  /** The count followed by the corrected blocks of groups holding `vs` is
      a stream of `vs`. */
  lemma BlocksAreStream(vs: seq<int>, groups: seq<seq<int>>, w: Word)
    requires forall i | 0 <= i < |groups| :: Group(groups[i], w)
    requires Flatten(groups) == vs && |vs| < TWO_31
    ensures StreamOf(WriteCount(|vs|) + Body(groups, w), vs, w)
  {
    var body := Body(groups, w);
    DecoderAfterCount(|vs|, body, w);
    var d := NewDecoder(WriteCount(|vs|) + body, w).value.1;
    assert d.rest == body + [];
    StreamRoundTrip(d, groups, [], w);
  }

  /** The corrected writer's stream reads back too. */
  lemma CorrectedRoundTrip(e: Encoder, vs: seq<int>, w: Word)
    requires Holds(e, [], w) && AllHold(vs, w) && |vs| < TWO_31
    ensures StreamOf(CorrectedWriteTo(EncodeOnto(e, vs, w), w), vs, w)
  {
    var r := EncodeOnto(e, vs, w);
    EncodeOntoHolds(e, vs, w);
    WrittenBytes(r, vs, w);
    BlocksAreStream(vs, Finish(r, w).flushed, w);
  }

  // ---------------------------------------------------------------------
  // Miniblock widths and the stale reference frame

  lemma BitWidthOfZero(w: Word)
    ensures GetBitWidth(0, w) == 0
  {
  }

  lemma BitWidthOfOne(w: Word)
    ensures GetBitWidth(1, w) == 1
  {
  }

  lemma SliceHolds(s: seq<int>, from: nat, c: nat, w: Word)
    requires from + c <= |s| && AllHold(s, w)
    ensures AllHold(s[from..from + c], w)
  {
    var t := s[from..from + c];
    forall k | 0 <= k < |t|
      ensures w.Holds(t[k])
    {
      assert t[k] == s[from + k];
    }
  }

  lemma EntriesHold(l: Layout, j: nat, w: Word)
    requires l.Writable(w) && j < |l.widths|
    ensures AllHold(MiniblockEntries(l, j), w)
  {
    MulBound(j, |l.widths|, l.miniblockLength);
    MulNat(j, l.miniblockLength);
    SliceHolds(l.frame, j * l.miniblockLength, MiniblockCount(l.count - 1, l.miniblockLength, j), w);
  }

  /** The largest bit width among the entries miniblock `j` packs (0
      when it packs none). */
  function PackedWidth(l: Layout, j: nat, w: Word): (r: nat)
    requires l.Writable(w) && j < |l.widths|
    ensures var es := MiniblockEntries(l, j);
      && (forall k | 0 <= k < |es| :: w.Holds(es[k]) && GetBitWidth(es[k], w) <= r)
      && (r == 0 || exists k | 0 <= k < |es| :: GetBitWidth(es[k], w) == r)
  {
    EntriesHold(l, j, w);
    var es := MiniblockEntries(l, j);
    MiniblockWidth(es, 0, |es|, w)
  }

  /** Every miniblock of `l` is packed at `PackedWidth`: no entry is cut
      short and no bit is wasted. */
  predicate Tight(l: Layout, w: Word)
    requires l.Writable(w)
  {
    forall j | 0 <= j < |l.widths| :: l.widths[j] == PackedWidth(l, j, w)
  }

  /** When the slots past the first `c` of a stretch are zero, its largest
      bit width is that of the first `c`. */
  lemma {:induction false} WidthOfZeroTail(frame: seq<int>, from: nat, len: nat, c: nat, w: Word)
    requires from + len <= |frame| && AllHold(frame, w) && c <= len
    requires forall k | from + c <= k < from + len :: frame[k] == 0
    ensures MiniblockWidth(frame, from, len, w) == MiniblockWidth(frame[from..from + c], 0, c, w)
  {
    var es := frame[from..from + c];
    var a := MiniblockWidth(frame, from, len, w);
    var b := MiniblockWidth(es, 0, c, w);
    if b > 0 {
      var k :| 0 <= k < c && GetBitWidth(es[k], w) == b;
      assert es[k] == frame[from + k];
    }
    if a > 0 {
      var k :| from <= k < from + len && GetBitWidth(frame[k], w) == a;
      if k >= from + c {
        BitWidthOfZero(w);
      } else {
        assert es[k - from] == frame[k];
      }
    }
  }

  /** One miniblock of a layout whose frame is zero past its entries. */
  lemma MiniblockTight(l: Layout, j: nat, w: Word)
    requires l.Writable(w) && j < |l.widths|
    requires j * l.miniblockLength + l.miniblockLength <= |l.frame|
    requires l.widths[j] == MiniblockWidth(l.frame, j * l.miniblockLength, l.miniblockLength, w)
    requires forall k | l.count - 1 <= k < |l.frame| :: l.frame[k] == 0
    ensures l.widths[j] == PackedWidth(l, j, w)
  {
    EntriesHold(l, j, w);
    MulNat(j, l.miniblockLength);
    var from := j * l.miniblockLength;
    var c := MiniblockCount(l.count - 1, l.miniblockLength, j);
    assert MiniblockEntries(l, j) == l.frame[from..from + c];
    forall k | from + c <= k < from + l.miniblockLength
      ensures l.frame[k] == 0
    {
      assert l.count - 1 <= k;
    }
    WidthOfZeroTail(l.frame, from, l.miniblockLength, c, w);
  }

  /** The corrected block: with the frame zeroed past the entries, every
      miniblock is tight, whatever miniblock length is chosen. */
  lemma ReferenceWidthTight(vs: seq<int>, ml: nat, w: Word)
    requires Group(vs, w) && Candidate(ml, BlockLength(|vs|))
    ensures Tight(LayoutOf(vs, ReferenceFrame(Entries(vs, w)), ml, w), w)
  {
    var l := LayoutOf(vs, ReferenceFrame(Entries(vs, w)), ml, w);
    forall j | 0 <= j < |l.widths|
      ensures l.widths[j] == PackedWidth(l, j, w)
    {
      MiniblockTight(l, j, w);
    }
  }

  lemma ShortBlockEntries()
    ensures Entries([0, 0, 1], W32) == [0, 1]
  {
    var ds := Deltas([0, 0, 1]);
    assert ds == [0, 1];
    assert MinDelta(ds, W32) == 0;
  }

  /** Two equal values have one entry, 0. */
  lemma PairEntries(a: int, w: Word)
    requires w.Holds(a)
    ensures MinDelta(Deltas([a, a]), w) == 0 && Entries([a, a], w) == [0]
  {
    var ds := Deltas([a, a]);
    assert ds == [0];
    assert MinDelta(ds, w) == 0;
  }

  /** After flushing the block `0, 0, 1` from a fresh encoder, slot 1 of
      the Java's frame holds 1; `reset` does not clear it. */
  lemma ShortBlockLeavesSlot()
    ensures AllHold(ZeroFrame, W32)
    ensures FlushAsWritten(ZeroFrame, [0, 0, 1], W32).1[1] == 1
  {
    ShortBlockEntries();
    var r := FlushAsWritten(ZeroFrame, [0, 0, 1], W32).1;
    assert r[..2] == [0, 1];
  }

  /** The block of two equal values from a frame whose first slot is their
      one entry, 0: one miniblock of length 8, packed at the widest bit
      width among the frame's first 8 slots. */
  lemma PairOnFrame(frame: seq<int>, a: int, ml: nat, w: Word)
    requires |frame| == BufferSlots && AllHold(frame, w) && frame[0] == 0 && w.Holds(a)
    requires Candidate(ml, BlockLength(2))
    ensures ml == 8
    ensures var l := LayoutOf([a, a], frame, ml, w);
      PairShape(l, a, w) && l.widths == [MiniblockWidth(frame, 0, ml, w)]
  {
    assert BlockLength(2) == 8;
    PairEntries(a, w);
  }

  /** The header of the block of two equal values `a`: block and miniblock
      length 8, two values, first value `a`, smallest difference 0, one
      miniblock. */
  predicate PairShape(l: Layout, a: int, w: Word) {
    && l.Writable(w) && l.blockLength == 8 && l.miniblockLength == 8 && l.count == 2
    && l.start == a && l.minDelta == 0 && |l.widths| == 1
  }

  /** The one entry of a block of two values is the frame's first slot. */
  lemma OneEntry(l: Layout, w: Word)
    requires l.Writable(w) && |l.widths| == 1 && l.count == 2 && l.miniblockLength > 0
    ensures MiniblockEntries(l, 0) == [l.frame[0]]
  {
    assert MiniblockEntries(l, 0) == l.frame[0..1];
  }

  /** A one-miniblock layout of two values packs its one entry in
      `BytesFor(width)` bytes. */
  lemma OneMiniblockBytes(l: Layout, w: Word)
    requires l.Writable(w) && |l.widths| == 1 && l.count == 2 && l.miniblockLength == 8
    ensures |PackedMiniblocks(l, 0, w)| == BytesFor(l.widths[0])
  {
    assert |MiniblockEntries(l, 0)| == 1;
    assert PackedMiniblocks(l, 1, w) == [];
  }

  /** Two headers of the same two values differ in length only by their
      packed miniblocks. */
  lemma SameHeader(l: Layout, l0: Layout, a: int, w: Word)
    requires PairShape(l, a, w) && PairShape(l0, a, w)
    ensures |WriteLayout(l, w)| - |PackedMiniblocks(l, 0, w)| == |WriteLayout(l0, w)| - |PackedMiniblocks(l0, 0, w)|
  {
  }

  /** What `flushBlock` writes from the frame `stale`: the block of the
      best miniblock length for the frame with the new entries in front. */
  lemma AsWrittenBytes(stale: seq<int>, vs: seq<int>, w: Word)
    requires |stale| == BufferSlots && AllHold(stale, w) && Group(vs, w)
    ensures AllHold(ReferenceFrameAsWritten(stale, Entries(vs, w)), w)
    ensures var frame := ReferenceFrameAsWritten(stale, Entries(vs, w));
      FlushAsWritten(stale, vs, w).0 == BlockBytes(vs, frame, BestMiniblockLength(vs, frame, w), w)
  {
    var es := Entries(vs, w);
    var frame := ReferenceFrameAsWritten(stale, es);
    forall k | 0 <= k < BufferSlots
      ensures w.Holds(frame[k])
    {
      if k >= |es| {
        assert frame[k] == stale[|es|..][k - |es|];
      }
    }
  }

  /** `Block` is the block of the best miniblock length for the cleared
      frame. */
  lemma BlockIsLayout(vs: seq<int>, w: Word)
    requires Group(vs, w)
    ensures AllHold(ReferenceFrame(Entries(vs, w)), w)
    ensures var frame := ReferenceFrame(Entries(vs, w));
      Block(vs, w) == BlockBytes(vs, frame, BestMiniblockLength(vs, frame, w), w)
  {
  }

  /** The Java's layout for two equal values from a frame whose slot 1 is
      not 0: its one entry, 0, is packed at a positive width. */
  lemma StaleLayout(stale: seq<int>, a: int, w: Word) returns (l: Layout)
    requires |stale| == BufferSlots && AllHold(stale, w) && stale[1] != 0 && w.Holds(a)
    ensures AllHold(ReferenceFrameAsWritten(stale, Entries([a, a], w)), w)
    ensures var frame := ReferenceFrameAsWritten(stale, Entries([a, a], w));
      l == LayoutOf([a, a], frame, BestMiniblockLength([a, a], frame, w), w)
    ensures PairShape(l, a, w) && l.widths[0] > 0 && MiniblockEntries(l, 0) == [0]
    ensures FlushAsWritten(stale, [a, a], w).0 == WriteLayout(l, w)
  {
    PairEntries(a, w);
    AsWrittenBytes(stale, [a, a], w);
    var frame := ReferenceFrameAsWritten(stale, [0]);
    assert frame[0] == 0 && frame[1] == stale[1];
    PairOnFrame(frame, a, BestMiniblockLength([a, a], frame, w), w);
    OneEntry(LayoutOf([a, a], frame, BestMiniblockLength([a, a], frame, w), w), w);
    var ml := BestMiniblockLength([a, a], frame, w);
    assert GetBitWidth(frame[1], w) <= MiniblockWidth(frame, 0, ml, w);
    l := LayoutOf([a, a], frame, ml, w);
  }

  /** The cleared frame of a block of two equal values is all zero, so
      its widest bit width over any stretch is 0. */
  lemma ClearedPairFrame(len: nat, w: Word)
    requires len <= BufferSlots
    ensures AllHold(ReferenceFrame([0]), w) && MiniblockWidth(ReferenceFrame([0]), 0, len, w) == 0
  {
    var frame := ReferenceFrame([0]);
    assert forall k | 0 <= k < BufferSlots :: frame[k] == 0;
    WidthOfZeroTail(frame, 0, len, 0, w);
  }

  /** The corrected layout for two equal values: its entry packed 0 bits
      wide. */
  lemma ClearedLayout(a: int, w: Word) returns (l: Layout)
    requires w.Holds(a)
    ensures PairShape(l, a, w) && l.widths == [0]
    ensures Block([a, a], w) == WriteLayout(l, w)
  {
    PairEntries(a, w);
    BlockIsLayout([a, a], w);
    var frame := ReferenceFrame([0]);
    var ml := BestMiniblockLength([a, a], frame, w);
    ClearedPairFrame(BufferSlots, w);
    PairOnFrame(frame, a, ml, w);
    ClearedPairFrame(ml, w);
    l := LayoutOf([a, a], frame, ml, w);
  }

  /** A miniblock whose one entry is 0 packed at a positive width is not
      tight. */
  lemma WastedBits(l: Layout, w: Word)
    requires l.Writable(w) && |l.widths| >= 1 && MiniblockEntries(l, 0) == [0] && l.widths[0] > 0
    ensures !Tight(l, w)
  {
    BitWidthOfZero(w);
    assert PackedWidth(l, 0, w) == 0;
  }

  /** Of two layouts of the same two values, the one packing its entry
      at a positive width is longer than the one packing it at width 0. */
  lemma WiderIsLonger(l: Layout, l0: Layout, a: int, w: Word)
    requires PairShape(l, a, w) && PairShape(l0, a, w) && l.widths[0] > 0 && l0.widths == [0]
    ensures |WriteLayout(l, w)| > |WriteLayout(l0, w)|
  {
    OneMiniblockBytes(l, w);
    OneMiniblockBytes(l0, w);
    SameHeader(l, l0, a, w);
  }

  /** The Java's layout and the corrected one for two equal values. */
  lemma PairLayouts(stale: seq<int>, a: int, w: Word) returns (l: Layout, l0: Layout)
    requires |stale| == BufferSlots && AllHold(stale, w) && stale[1] != 0 && w.Holds(a)
    ensures PairShape(l, a, w) && PairShape(l0, a, w) && l.widths[0] > 0 && l0.widths == [0]
    ensures FlushAsWritten(stale, [a, a], w).0 == WriteLayout(l, w) && Block([a, a], w) == WriteLayout(l0, w)
  {
    l := StaleLayout(stale, a, w);
    l0 := ClearedLayout(a, w);
  }

  /** The Java's block for two equal values from such a frame is longer
      than the corrected one. */
  lemma StaleLonger(stale: seq<int>, a: int, w: Word)
    requires |stale| == BufferSlots && AllHold(stale, w) && stale[1] != 0 && w.Holds(a)
    ensures |FlushAsWritten(stale, [a, a], w).0| > |Block([a, a], w)|
  {
    var l, l0 := PairLayouts(stale, a, w);
    WiderIsLonger(l, l0, a, w);
  }

  /** The Java clears the frame only where the new entries go, so a block
      of two equal values (one entry, 0) flushed after a `reset` from a
      frame whose slot 1 an earlier block left nonzero (as
      `ShortBlockLeavesSlot` shows the block `0, 0, 1` does) packs that
      entry at a positive width: the miniblock is not tight, and the block
      is longer than the one from a cleared frame. */
  lemma StaleFrameWidensMiniblock(stale: seq<int>, a: int, w: Word)
    requires |stale| == BufferSlots && AllHold(stale, w) && stale[1] != 0 && w.Holds(a)
    ensures AllHold(ReferenceFrameAsWritten(stale, Entries([a, a], w)), w)
    ensures var frame := ReferenceFrameAsWritten(stale, Entries([a, a], w));
      !Tight(LayoutOf([a, a], frame, BestMiniblockLength([a, a], frame, w), w), w)
    ensures |FlushAsWritten(stale, [a, a], w).0| > |Block([a, a], w)|
  {
    var l := StaleLayout(stale, a, w);
    WastedBits(l, w);
    StaleLonger(stale, a, w);
  }

  /** The wider block still decodes to its values: the stale slots lie
      past the entries the decoder reads. */
  lemma AsWrittenDecodes(d: Decoder, stale: seq<int>, vs: seq<int>, more: seq<byte>, w: Word)
    requires |stale| == BufferSlots && AllHold(stale, w) && Group(vs, w)
    requires d.remaining == 0 && d.rest == FlushAsWritten(stale, vs, w).0 + more
    ensures DecodesTo(d, vs, more, w)
  {
    var frame := ReferenceFrameAsWritten(stale, Entries(vs, w));
    var ml := BestMiniblockLength(vs, frame, w);
    LayoutRepresents(vs, frame, ml, w);
    BlockRoundTrip(d, LayoutOf(vs, frame, ml, w), vs, more, w);
  }

  // ---------------------------------------------------------------------
  // The stale frame across a reset, stream by stream

  /** An encoder holding at most one block's worth of values has flushed
      nothing and buffers them all. */
  lemma HoldsShort(e: Encoder, vs: seq<int>, w: Word)
    requires Holds(e, vs, w) && |vs| <= MaxBlockValues
    ensures e.flushed == [] && e.values == vs
  {
    if e.flushed != [] {
      FlattenCons(e.flushed);
      assert false;
    }
  }

  /** One group's block, as the Java writes it. */
  lemma OneGroupAsWritten(frame: seq<int>, vs: seq<int>, w: Word)
    requires |frame| == BufferSlots && AllHold(frame, w) && Group(vs, w)
    ensures BlocksAsWritten(frame, [vs], w) == FlushAsWritten(frame, vs, w)
  {
    assert [vs][..0] == [];
    assert [] + FlushAsWritten(frame, vs, w).0 == FlushAsWritten(frame, vs, w).0;
  }

  /** One group's corrected block. */
  lemma OneGroupBody(vs: seq<int>, w: Word)
    requires Group(vs, w)
    ensures Body([vs], w) == Block(vs, w)
  {
    assert [vs][..0] == [];
    assert [] + Block(vs, w) == Block(vs, w);
  }

  /** Encoding three values `0, 0, 1` into a fresh encoder and finishing
      flushes them as one block, which leaves 1 in slot 1 of the frame. */
  lemma ShortBlockEncoder()
    ensures var f := Finish(EncodeAll([0, 0, 1], W32), W32);
      f.Valid(W32) && f.flushed == [[0, 0, 1]] && CurrentFrame(f, W32)[1] == 1
  {
    var vs: seq<int> := [0, 0, 1];
    var e := EncodeAll(vs, W32);
    EncodeAllHolds(vs, W32);
    HoldsShort(e, vs, W32);
    var f := Finish(e, W32);
    assert f.flushed == [vs] && f.startFrame == ZeroFrame;
    OneGroupAsWritten(ZeroFrame, vs, W32);
    ShortBlockLeavesSlot();
  }

  /** An encoder holding nothing that encodes two values buffers them. */
  lemma PairBuffered(e: Encoder, a: int, w: Word)
    requires Holds(e, [], w) && w.Holds(a)
    ensures var r := EncodeOnto(e, [a, a], w);
      r.flushed == [] && r.values == [a, a] && r.numValues == 2 && r.startFrame == e.startFrame
  {
    EncodeOntoHolds(e, [a, a], w);
    HoldsShort(EncodeOnto(e, [a, a], w), [a, a], w);
  }

  /** An encoder whose only values are buffered writes them as one block:
      from its frame as the Java does, or from a cleared one. */
  lemma OneBlockWritten(e: Encoder, w: Word)
    requires e.Valid(w) && e.flushed == [] && |e.values| > 0
    ensures WriteTo(e, w) == WriteCount(e.numValues) + FlushAsWritten(e.startFrame, e.values, w).0
    ensures CorrectedWriteTo(e, w) == WriteCount(e.numValues) + Block(e.values, w)
  {
    var f := Finish(e, w);
    assert f.flushed == [e.values] && f.startFrame == e.startFrame && f.numValues == e.numValues;
    OneGroupAsWritten(e.startFrame, e.values, w);
    OneGroupBody(e.values, w);
  }

  /** An emptied encoder whose frame keeps a nonzero slot 1 writes two
      equal values in a longer stream than the corrected writer does. Such
      an encoder is what `reset` leaves after `0, 0, 1` and `finish`
      (`ShortBlockEncoder`, `ResetHoldsNothing`). */
  lemma StaleFrameLongerStream(e0: Encoder, a: int, w: Word)
    requires Holds(e0, [], w) && e0.startFrame[1] != 0 && w.Holds(a)
    ensures |WriteTo(EncodeOnto(e0, [a, a], w), w)| > |CorrectedWriteTo(EncodeOnto(e0, [a, a], w), w)|
  {
    PairBuffered(e0, a, w);
    var e := EncodeOnto(e0, [a, a], w);
    OneBlockWritten(e, w);
    StaleLonger(e0.startFrame, a, w);
  }
}
