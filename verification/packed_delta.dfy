/** The block / miniblock delta encoding shared by dendrite's
    `IntPackedDelta` (Java ints, word `W32`) and `LongPackedDelta` (Java
    longs, word `W64`).

    The encoder buffers up to 129 values and flushes them as one block: a
    header, the first value, the smallest difference between neighbours, one
    bit width per miniblock, and then each difference's excess over the
    smallest one, bit-packed miniblock by miniblock. Of the miniblock lengths
    8, 16, ..., 128 that fit the block, the one giving the shortest block is
    written. The two Java files differ only in the word, in how the first
    value and the smallest difference are written, and in the decoder's
    accumulator; those differences are the cases on `w` below. */
module PackedDelta {
  import opened Wrappers
  import opened Words
  import opened Bytes
  import opened Encoding
  import opened BitStreams
  import opened Seqs

  /** `MAX_BLOCK_LENGTH`: the most differences one block holds. */
  const MaxBlockLength: nat := 128

  /** `MIN_MINIBLOCK_LENGTH`. */
  const MinMiniblockLength: nat := 8

  /** The length of `valueBuffer`: a block's first value and its differences. */
  const MaxBlockValues: nat := 129

  /** The lengths of the decoder's `miniblockBuffer` and `miniblockBitWidths`. */
  const BufferSlots: nat := 128
  const WidthSlots: nat := 16

  /** The lengths a block or a miniblock can have. */
  predicate PowerLength(n: nat) {
    n == 8 || n == 16 || n == 32 || n == 64 || n == 128
  }

  predicate AllHold(s: seq<int>, w: Word) {
    forall k | 0 <= k < |s| :: w.Holds(s[k])
  }

  lemma AllHoldSnoc(s: seq<int>, v: int, w: Word)
    requires AllHold(s, w) && w.Holds(v)
    ensures AllHold(s + [v], w)
  {
  }

  lemma MulBound(j: nat, n: nat, m: nat)
    requires j < n
    ensures j * m + m <= n * m
  {
    assert (j + 1) * m <= n * m by {
      assert n * m == (j + 1) * m + (n - j - 1) * m;
    }
  }

  // ---------------------------------------------------------------------
  // Block geometry and the frame of reference

  /** `getBlockLength` for a block of `n` values: 0 for a single value,
      otherwise the least of 8, 16, ..., 128 that holds the `n - 1`
      differences. */
  function BlockLength(n: nat): (r: nat)
    requires 1 <= n <= MaxBlockValues
    ensures n == 1 ==> r == 0
    ensures n > 1 ==> PowerLength(r) && n - 1 <= r && (r == 8 || n - 1 > r / 2)
  {
    if n == 1 then 0 else GrowBlockLength(n - 1, 8)
  }

  /** The doubling loop of `getBlockLength`. */
  function GrowBlockLength(deltas: nat, b: nat): (r: nat)
    requires PowerLength(b) && deltas <= MaxBlockLength && (b == 8 || deltas > b / 2)
    ensures PowerLength(r) && deltas <= r && (r == 8 || deltas > r / 2)
    decreases MaxBlockLength - b
  {
    if deltas > b && b < MaxBlockLength then GrowBlockLength(deltas, 2 * b) else b
  }

  /** `computeDeltas`: the differences between neighbours. They are exact:
      a `long` difference of two ints, a BigInteger difference of two
      longs. */
  function Deltas(vs: seq<int>): (ds: seq<int>)
    ensures |ds| == if |vs| == 0 then 0 else |vs| - 1
    ensures forall k | 0 <= k < |ds| :: ds[k] == vs[k + 1] - vs[k]
  {
    if |vs| <= 1 then [] else seq(|vs| - 1, k requires 0 <= k < |vs| - 1 => vs[k + 1] - vs[k])
  }

  /** The starting `minDelta`: `Long.MAX_VALUE` for ints, `INFINITY`
      (`Long.MAX_VALUE << 2`) for longs. */
  function Infinity(w: Word): int {
    if w.W32? then TWO_63 - 1 else (TWO_63 - 1) * 4
  }

  /** The running minimum of `computeDeltas`. */
  function MinDelta(ds: seq<int>, w: Word): (m: int)
    ensures m <= Infinity(w)
    ensures forall k | 0 <= k < |ds| :: m <= ds[k]
    ensures m == Infinity(w) || exists k | 0 <= k < |ds| :: m == ds[k]
  {
    if |ds| == 0 then Infinity(w)
    else
      var front := ds[..|ds| - 1];
      var m := MinDelta(front, w);
      assert forall k | 0 <= k < |front| :: front[k] == ds[k];
      if ds[|ds| - 1] < m then ds[|ds| - 1] else m
  }

  /** `computeFrameOfReference`: each difference's excess over the
      smallest, narrowed to the word (`(int)` for ints, `longValue()` for
      longs). */
  function Entries(vs: seq<int>, w: Word): (es: seq<int>)
    ensures |es| == |Deltas(vs)| && AllHold(es, w)
  {
    var ds := Deltas(vs);
    Excess(ds, MinDelta(ds, w), w)
  }

  /** Each of `ds` less `m`, narrowed to the word. */
  function Excess(ds: seq<int>, m: int, w: Word): (es: seq<int>)
    ensures |es| == |ds| && AllHold(es, w)
    ensures forall k | 0 <= k < |ds| :: es[k] == ToSigned(ds[k] - m, w)
  {
    seq(|ds|, k requires 0 <= k < |ds| => ToSigned(ds[k] - m, w))
  }

  /** The 128-slot `referenceFrame` a block is packed from: the block's
      entries, then zeros. */
  function ReferenceFrame(es: seq<int>): (f: seq<int>)
    requires |es| <= BufferSlots
    ensures |f| == BufferSlots && f[..|es|] == es
    ensures forall k | |es| <= k < BufferSlots :: f[k] == 0
  {
    es + seq(BufferSlots - |es|, _ => 0)
  }

  /** `referenceFrame` as the Java leaves it: `Arrays.fill` clears only the
      slots about to be overwritten, so past the block's entries the slots
      keep what earlier blocks put there (the array survives `reset`). */
  function ReferenceFrameAsWritten(stale: seq<int>, es: seq<int>): (f: seq<int>)
    requires |stale| == BufferSlots && |es| <= BufferSlots
    ensures |f| == BufferSlots && f[..|es|] == es && f[|es|..] == stale[|es|..]
  {
    es + stale[|es|..]
  }

  /** `getMiniBlockBitWidth`: the largest bit width among `len` frame slots
      from `start`. */
  function MiniblockWidth(frame: seq<int>, start: nat, len: nat, w: Word): (r: nat)
    requires start + len <= |frame| && AllHold(frame, w)
    ensures r <= w.Bits()
    ensures forall k | start <= k < start + len :: GetBitWidth(frame[k], w) <= r
    ensures len == 0 ==> r == 0
    ensures len > 0 ==> exists k | start <= k < start + len :: GetBitWidth(frame[k], w) == r
  {
    if len == 0 then 0
    else
      var m := MiniblockWidth(frame, start, len - 1, w);
      var b := GetBitWidth(frame[start + len - 1], w);
      if b > m then b else m
  }

  // ---------------------------------------------------------------------
  // Block layout

  /** What `flushBlockWithNumMiniBlocks` writes for one miniblock length,
      before it becomes bytes: the block length, the miniblock length, the
      number of values, the first value, the smallest difference, one width
      per miniblock (so `|widths|` is `numMiniblocks`) and the frame. */
  datatype Layout = Layout(
    blockLength: nat,
    miniblockLength: nat,
    count: nat,
    start: int,
    minDelta: int,
    widths: seq<nat>,
    frame: seq<int>)
  {
    /** What writing the layout needs. */
    predicate Writable(w: Word) {
      && blockLength < TWO_31 && |widths| < TWO_31 && 1 <= count < TWO_31
      && w.Holds(start) && (w.W32? ==> W64.Holds(minDelta))
      && (forall j | 0 <= j < |widths| :: widths[j] <= w.Bits())
      && |widths| * miniblockLength <= |frame| && AllHold(frame, w)
    }
  }

  /** The number of differences in miniblock `j` of a block of `m`
      differences: `min(m - j * ml, ml)`, and none once that is not positive
      (the packing loop then writes nothing). */
  function MiniblockCount(m: nat, ml: nat, j: nat): (c: nat)
    ensures c <= ml
    ensures m <= j * ml ==> c == 0
    ensures j * ml < m ==> j * ml + c <= m && (ml > 0 ==> c > 0)
  {
    if m <= j * ml then 0 else if m - j * ml < ml then m - j * ml else ml
  }

  /** The frame slots miniblock `j` packs. */
  function MiniblockEntries(l: Layout, j: nat): (r: seq<int>)
    requires 1 <= l.count && j < |l.widths| && |l.widths| * l.miniblockLength <= |l.frame|
    ensures |r| == MiniblockCount(l.count - 1, l.miniblockLength, j)
  {
    MulBound(j, |l.widths|, l.miniblockLength);
    var from := j * l.miniblockLength;
    l.frame[from..from + MiniblockCount(l.count - 1, l.miniblockLength, j)]
  }

  /** The packed miniblocks from the `j`-th on. */
  function PackedMiniblocks(l: Layout, j: nat, w: Word): seq<byte>
    requires l.Writable(w) && j <= |l.widths|
    decreases |l.widths| - j
  {
    if j == |l.widths| then []
    else WritePackedInts(MiniblockEntries(l, j), l.widths[j], w) + PackedMiniblocks(l, j + 1, w)
  }

  /** The first value: `writeSInt` for ints, `writeSLong` for longs. */
  function WriteStart(v: int, w: Word): seq<byte>
    requires w.Holds(v)
  {
    if w.W32? then WriteSInt(v) else WriteSLong(v)
  }

  function ReadStart(bs: seq<byte>, w: Word): (r: Outcome<Parsed<int>>)
    ensures r.Success? ==> w.Holds(r.value.value) && |r.value.rest| < |bs|
  {
    if w.W32? then
      var p :- ReadSInt(bs);
      Success(Parsed(p.value as int, p.rest))
    else
      var p :- ReadSLong(bs);
      Success(Parsed(p.value as int, p.rest))
  }

  /** The smallest difference: `writeSLong` for ints, `writeSIntVLQ` (a
      ZigZag BigInteger) for longs. */
  function WriteMinDelta(m: int, w: Word): seq<byte>
    requires w.W32? ==> W64.Holds(m)
  {
    if w.W32? then WriteSLong(m) else WriteSIntVLQ(m)
  }

  function ReadMinDelta(bs: seq<byte>, w: Word): (r: Outcome<Parsed<int>>)
    ensures r.Success? ==> |r.value.rest| < |bs|
  {
    if w.W32? then
      var p :- ReadSLong(bs);
      Success(Parsed(p.value as int, p.rest))
    else ReadSIntVLQ(bs)
  }

  /** The width bytes, one `write(int)` each. */
  function WidthBytes(ws: seq<nat>): (r: seq<byte>)
    requires forall j | 0 <= j < |ws| :: ws[j] <= 64
    ensures |r| == |ws| && forall j | 0 <= j < |ws| :: r[j] == ws[j]
  {
    seq(|ws|, j requires 0 <= j < |ws| => ws[j] as byte)
  }

  /** `flushBlockWithNumMiniBlocks`: the block length, the number of
      miniblocks and of values as UInts, the first value, and, when there
      are miniblocks, the smallest difference, the widths and the packed
      miniblocks. */
  function WriteLayout(l: Layout, w: Word): seq<byte>
    requires l.Writable(w)
  {
    WriteUInt(l.blockLength) + WriteUInt(|l.widths|) + WriteUInt(l.count) + WriteStart(l.start, w)
    + (if |l.widths| > 0 then WriteMinDelta(l.minDelta, w) + WidthBytes(l.widths) + PackedMiniblocks(l, 0, w)
       else [])
  }

  /** A miniblock length the search tries for a block of length `bl`: 8,
      and each longer one up to the block length. */
  predicate Candidate(ml: nat, bl: nat) {
    PowerLength(ml) && (ml == MinMiniblockLength || ml <= bl)
  }

  /** The widths for miniblock length `ml`, one per miniblock. */
  function Widths(frame: seq<int>, ml: nat, nm: nat, w: Word): (ws: seq<nat>)
    requires nm * ml <= |frame| && AllHold(frame, w)
    ensures |ws| == nm
    ensures forall j | 0 <= j < nm :: j * ml + ml <= |frame| && ws[j] == MiniblockWidth(frame, j * ml, ml, w)
    ensures forall j | 0 <= j < nm :: ws[j] <= w.Bits()
  {
    if nm == 0 then []
    else
      MulBound(nm - 1, nm, ml);
      Widths(frame, ml, nm - 1, w) + [MiniblockWidth(frame, (nm - 1) * ml, ml, w)]
  }

  lemma MinDeltaHolds(vs: seq<int>, w: Word)
    requires AllHold(vs, w)
    ensures w.W32? ==> W64.Holds(MinDelta(Deltas(vs), w))
  {
    var ds := Deltas(vs);
    var m := MinDelta(ds, w);
    if w.W32? && m != Infinity(w) {
      var k :| 0 <= k < |ds| && m == ds[k];
      assert W32.Holds(vs[k]) && W32.Holds(vs[k + 1]);
    }
  }

  /** The layout of the block of `vs` for miniblock length `ml`. */
  function LayoutOf(vs: seq<int>, frame: seq<int>, ml: nat, w: Word): (l: Layout)
    requires 1 <= |vs| <= MaxBlockValues && AllHold(vs, w)
    requires |frame| == BufferSlots && AllHold(frame, w) && Candidate(ml, BlockLength(|vs|))
    ensures l.Writable(w)
  {
    var bl := BlockLength(|vs|);
    var nm := bl / ml;
    NumMiniblocks(bl, ml);
    MinDeltaHolds(vs, w);
    Layout(bl, ml, |vs|, vs[0], MinDelta(Deltas(vs), w), Widths(frame, ml, nm, w), frame)
  }

  /** The number of miniblocks, `blockLength / miniblockLength`: at most
      16, and they fit the block. */
  lemma NumMiniblocks(bl: nat, ml: nat)
    requires PowerLength(ml) && (bl == 0 || PowerLength(bl))
    ensures (bl / ml) * ml <= bl <= MaxBlockLength && bl / ml <= WidthSlots
    ensures ml <= bl ==> (bl / ml) * ml == bl
  {
  }

  function BlockBytes(vs: seq<int>, frame: seq<int>, ml: nat, w: Word): seq<byte>
    requires 1 <= |vs| <= MaxBlockValues && AllHold(vs, w)
    requires |frame| == BufferSlots && AllHold(frame, w) && Candidate(ml, BlockLength(|vs|))
  {
    WriteLayout(LayoutOf(vs, frame, ml, w), w)
  }

  /** `getBestMiniblockEncodingForBlock`: the candidate miniblock length
      whose block is shortest, the first one on a tie (`BestIsShortest`). */
  function BestMiniblockLength(vs: seq<int>, frame: seq<int>, w: Word): (ml: nat)
    requires 1 <= |vs| <= MaxBlockValues && AllHold(vs, w)
    requires |frame| == BufferSlots && AllHold(frame, w)
    ensures Candidate(ml, BlockLength(|vs|))
  {
    var cost := BlockCost(vs, frame, w);
    ShortestStart(cost, BlockLength(|vs|));
    Shortest(cost, BlockLength(|vs|), 16, MinMiniblockLength)
  }

  /** The length of the block for each candidate miniblock length. */
  function BlockCost(vs: seq<int>, frame: seq<int>, w: Word): nat -> nat
    requires 1 <= |vs| <= MaxBlockValues && AllHold(vs, w)
    requires |frame| == BufferSlots && AllHold(frame, w)
  {
    var bl := BlockLength(|vs|);
    (ml: nat) => if Candidate(ml, bl) then |BlockBytes(vs, frame, ml, w)| else 0
  }

  /** The search loop from miniblock length `ml` on, `best` being the
      first of the shortest so far by `cost`. */
  function Shortest(cost: nat -> nat, bl: nat, ml: nat, best: nat): (r: nat)
    requires PowerLength(ml) || ml == 256
    requires Candidate(best, bl) && best < ml
    requires forall other: nat | Candidate(other, bl) && other < ml :: cost(best) <= cost(other)
    requires forall other: nat | Candidate(other, bl) && other < best :: cost(best) < cost(other)
    ensures Candidate(r, bl)
    ensures forall other: nat | Candidate(other, bl) :: cost(r) <= cost(other)
    ensures forall other: nat | Candidate(other, bl) && other < r :: cost(r) < cost(other)
    decreases 256 - ml
  {
    if ml <= MaxBlockLength && ml <= bl then
      var next := if cost(ml) < cost(best) then ml else best;
      Shortest(cost, bl, 2 * ml, next)
    else best
  }

  /** Before the loop, 8 is the shortest of the lengths below 16. */
  lemma ShortestStart(cost: nat -> nat, bl: nat)
    ensures Candidate(MinMiniblockLength, bl)
    ensures forall other: nat | Candidate(other, bl) && other < 16 :: cost(MinMiniblockLength) <= cost(other)
    ensures forall other: nat | Candidate(other, bl) && other < MinMiniblockLength ::
      cost(MinMiniblockLength) < cost(other)
  {
  }

  /** The chosen miniblock length gives a block no longer than any other
      candidate's, and strictly shorter than any smaller candidate's. */
  lemma BestIsShortest(vs: seq<int>, frame: seq<int>, w: Word, other: nat)
    requires 1 <= |vs| <= MaxBlockValues && AllHold(vs, w)
    requires |frame| == BufferSlots && AllHold(frame, w)
    requires Candidate(other, BlockLength(|vs|))
    ensures var ml := BestMiniblockLength(vs, frame, w);
      && |BlockBytes(vs, frame, ml, w)| <= |BlockBytes(vs, frame, other, w)|
      && (other < ml ==> |BlockBytes(vs, frame, ml, w)| < |BlockBytes(vs, frame, other, w)|)
  {
    var cost := BlockCost(vs, frame, w);
    var ml := BestMiniblockLength(vs, frame, w);
    assert cost(ml) <= cost(other);
  }

  /** The block `flushBlock` writes for the buffered values `vs` from the
      reference frame `frame`. */
  function FlushedBlock(vs: seq<int>, frame: seq<int>, w: Word): seq<byte>
    requires 1 <= |vs| <= MaxBlockValues && AllHold(vs, w)
    requires |frame| == BufferSlots && AllHold(frame, w)
  {
    BlockBytes(vs, frame, BestMiniblockLength(vs, frame, w), w)
  }

  /** A group of values flushed as one block. */
  predicate Group(vs: seq<int>, w: Word) {
    1 <= |vs| <= MaxBlockValues && AllHold(vs, w)
  }

  /** The block of `vs`, packed from a frame whose slots past the entries
      are zero. */
  function Block(vs: seq<int>, w: Word): seq<byte>
    requires Group(vs, w)
  {
    FlushedBlock(vs, ReferenceFrame(Entries(vs, w)), w)
  }

  /** The block as the Java writes it from the frame `stale` left by the
      block before, and the frame it leaves for the next. */
  function FlushAsWritten(stale: seq<int>, vs: seq<int>, w: Word): (r: (seq<byte>, seq<int>))
    requires |stale| == BufferSlots && AllHold(stale, w) && Group(vs, w)
    ensures |r.1| == BufferSlots && AllHold(r.1, w)
  {
    var es := Entries(vs, w);
    var frame := ReferenceFrameAsWritten(stale, es);
    assert forall k | 0 <= k < BufferSlots :: w.Holds(frame[k]) by {
      forall k | 0 <= k < BufferSlots
        ensures w.Holds(frame[k])
      {
        if k >= |es| {
          assert frame[k] == stale[|es|..][k - |es|];
        }
      }
    }
    (FlushedBlock(vs, frame, w), frame)
  }

  // ---------------------------------------------------------------------
  // Encoder

  /** The `referenceFrame` of a new encoder: `new int[128]` (`new
      long[128]`), every slot 0. */
  const ZeroFrame: seq<int> := ReferenceFrame([])

  /** The encoder: `numValues`, the groups of values flushed to the output
      stream since it was created or last reset, the values of the group
      being filled (`valueBuffer[..position]`), `numEncodedValues`, and
      `referenceFrame` as it was when the first of those groups was
      flushed. The output stream and the frame as it now is follow from
      these (`BlocksAsWritten`). */
  datatype Encoder = Encoder(numValues: nat, flushed: seq<seq<int>>, values: seq<int>, numEncodedValues: nat,
                             startFrame: seq<int>)
  {
    predicate Valid(w: Word) {
      && |values| <= MaxBlockValues && AllHold(values, w)
      && (forall i | 0 <= i < |flushed| :: Group(flushed[i], w))
      && |startFrame| == BufferSlots && AllHold(startFrame, w)
    }
  }

  /** What `flushBlock` writes for the groups, one after the other, from
      the frame `frame`: the bytes of their blocks, and the frame the last
      one leaves behind. */
  function BlocksAsWritten(frame: seq<int>, groups: seq<seq<int>>, w: Word): (r: (seq<byte>, seq<int>))
    requires |frame| == BufferSlots && AllHold(frame, w)
    requires forall i | 0 <= i < |groups| :: Group(groups[i], w)
    ensures |r.1| == BufferSlots && AllHold(r.1, w)
  {
    if |groups| == 0 then ([], frame)
    else
      var front := BlocksAsWritten(frame, groups[..|groups| - 1], w);
      var last := FlushAsWritten(front.1, groups[|groups| - 1], w);
      (front.0 + last.0, last.1)
  }

  /** The bytes of the groups' blocks, each packed from a frame whose
      slots past its entries are zero: the output of a writer that clears
      the whole frame before each block. */
  function Body(groups: seq<seq<int>>, w: Word): seq<byte>
    requires forall i | 0 <= i < |groups| :: Group(groups[i], w)
  {
    if |groups| == 0 then []
    else Body(groups[..|groups| - 1], w) + Block(groups[|groups| - 1], w)
  }

  const NewEncoder := Encoder(0, [], [], 0, ZeroFrame)

  /** `referenceFrame` as the encoder now holds it. */
  function CurrentFrame(e: Encoder, w: Word): (f: seq<int>)
    requires e.Valid(w)
    ensures |f| == BufferSlots && AllHold(f, w)
  {
    BlocksAsWritten(e.startFrame, e.flushed, w).1
  }

  /** `flushBlock`: writes the buffered values as a block, if there are
      any, and empties the buffer. */
  function FlushBlock(e: Encoder, w: Word): (r: Encoder)
    requires e.Valid(w)
    ensures r.Valid(w) && r.values == [] && r.numValues == e.numValues && r.startFrame == e.startFrame
    ensures |e.values| > 0 ==> r.flushed == e.flushed + [e.values]
    ensures |e.values| > 0 ==> r.numEncodedValues == e.numEncodedValues + |e.values|
    ensures |e.values| == 0 ==> r == e
  {
    if |e.values| > 0 then
      Encoder(e.numValues, e.flushed + [e.values], [], e.numEncodedValues + |e.values|, e.startFrame)
    else e
  }

  /** `encode`: counts the value, flushes a full buffer of 129 values, and
      buffers the value. */
  function Encode(e: Encoder, v: int, w: Word): (r: Encoder)
    requires e.Valid(w) && w.Holds(v)
    ensures r.Valid(w) && r.numValues == e.numValues + 1 && r.startFrame == e.startFrame
    ensures |e.values| < MaxBlockValues ==>
      r.values == e.values + [v] && r.flushed == e.flushed && r.numEncodedValues == e.numEncodedValues
    ensures |e.values| == MaxBlockValues ==>
      && r.values == [v] && r.flushed == e.flushed + [e.values]
      && r.numEncodedValues == e.numEncodedValues + MaxBlockValues
  {
    var counted := e.(numValues := e.numValues + 1);
    if |e.values| == MaxBlockValues then
      var flushed := FlushBlock(counted, w);
      AllHoldSnoc([], v, w);
      assert [] + [v] == [v];
      flushed.(values := [v])
    else
      AllHoldSnoc(e.values, v, w);
      counted.(values := e.values + [v])
  }

  /** `finish`: flushes the buffered values, if any. */
  function Finish(e: Encoder, w: Word): (r: Encoder)
    requires e.Valid(w)
    ensures r.Valid(w) && r.values == [] && r.numValues == e.numValues && r.startFrame == e.startFrame
    ensures |e.values| > 0 ==> r.flushed == e.flushed + [e.values]
    ensures |e.values| == 0 ==> r == e
  {
    if |e.values| > 0 then FlushBlock(e, w) else e
  }

  /** `reset`: forgets the buffer, the flushed count and the output, but
      keeps `referenceFrame` as the last block left it. */
  function Reset(e: Encoder, w: Word): (r: Encoder)
    requires e.Valid(w)
    ensures r.Valid(w)
    ensures r.numValues == 0 && r.flushed == [] && r.values == [] && r.numEncodedValues == 0
    ensures r.startFrame == CurrentFrame(e, w)
  {
    Encoder(0, [], [], 0, CurrentFrame(e, w))
  }

  /** The count and the bytes written so far (`numValues` and `mos`). */
  function Written(e: Encoder, w: Word): Frame
    requires e.Valid(w)
  {
    Frame(e.numValues, BlocksAsWritten(e.startFrame, e.flushed, w).0)
  }

  /** `writeTo` (inherited): finishes, then writes the count and the
      blocks. */
  function WriteTo(e: Encoder, w: Word): seq<byte>
    requires e.Valid(w)
  {
    WriteFrame(Written(Finish(e, w), w))
  }

  /** What `writeTo` would write if every block were packed from a frame
      cleared past its entries. */
  function CorrectedWriteTo(e: Encoder, w: Word): seq<byte>
    requires e.Valid(w)
  {
    var f := Finish(e, w);
    WriteFrame(Frame(f.numValues, Body(f.flushed, w)))
  }

  /** `getLength` (inherited): the count and the blocks flushed so far. */
  function GetLength(e: Encoder, w: Word): nat
    requires e.Valid(w)
  {
    FrameLength(Written(e, w))
  }

  /** `estimatedLength`: the buffer size before any block is flushed,
      otherwise the length scaled by `1 + position / numEncodedValues`.
      The Java divides in floating point and truncates; for a position of
      at most 129 and a positive count that is the integer quotient. The
      product is an `int` product. */
  function EstimatedLength(e: Encoder, w: Word): (n: int32)
    requires e.Valid(w)
  {
    if e.numEncodedValues == 0 then |e.values|
    else ToSigned(ToSigned(GetLength(e, w), W32) * (1 + |e.values| / e.numEncodedValues), W32)
  }

  // ---------------------------------------------------------------------
  // Decoder

  /** The decoder's `miniblockBuffer`. */
  type Slots = s: seq<int> | |s| == BufferSlots witness seq(BufferSlots, _ => 0)

  /** The decoder's `miniblockBitWidths`. */
  type WidthArray = s: seq<byte> | |s| == WidthSlots witness seq(WidthSlots, _ => 0)

  /** The decoder's fields: the unread bytes, `miniblockBuffer`,
      `miniblockPosition`, `miniblockLength`, `currentMiniblockIndex`,
      `numMiniblocks`, `miniblockBitWidths`, `remainingValuesInBlock`,
      `blockLength`, `blockMinDelta` (a Java `null` until a block with
      miniblocks sets it, for longs) and `blockCurrentValue`. */
  datatype Decoder = Decoder(
    rest: seq<byte>,
    buffer: Slots,
    position: int,
    miniblockLength: int,
    index: int,
    numMiniblocks: int,
    widths: WidthArray,
    remaining: int,
    blockLength: int,
    minDelta: Option<int>,
    current: int)

  /** The decoder constructor: the count (`ADecoder`), then the initial
      fields. The int decoder's `blockMinDelta` starts at 0, the long
      decoder's at `null`. */
  function NewDecoder(bs: seq<byte>, w: Word): (r: Outcome<(int32, Decoder)>)
    ensures r.Success? ==> r.value.1.remaining == 0
    ensures r.Success? ==> ReadCount(bs) == Success(Parsed(r.value.0, r.value.1.rest))
  {
    var count :- ReadCount(bs);
    Success((count.value, Decoder(count.rest, seq(BufferSlots, _ => 0), 0, 0, 0, 0,
      seq(WidthSlots, _ => 0), 0, 0, if w.W32? then Some(0) else None, 0)))
  }

  /** Java `int` division, which truncates toward zero. */
  function TruncDiv(a: int, b: int): (q: int)
    requires b > 0
    ensures a >= 0 ==> q == a / b
  {
    if a >= 0 then a / b else -((-a) / b)
  }

  /** The width loop of `initNextBlock`: `n` bytes into the 16-slot array;
      the 17th store throws, after its byte is read. */
  function ReadWidths(bs: seq<byte>, n: int, prior: WidthArray): (r: Outcome<Parsed<WidthArray>>)
    requires n > 0
    ensures r.Success? ==> n <= WidthSlots && n <= |bs| && |r.value.rest| <= |bs|
    ensures r.Success? ==> r.value.value[..n] == bs[..n] && r.value.rest == bs[n..]
    ensures n <= WidthSlots && n <= |bs| ==> r.Success?
  {
    if n <= WidthSlots then
      if |bs| < n then Failure(BufferUnderflow)
      else
        var ws: WidthArray := bs[..n] + prior[n..];
        assert ws[..n] == bs[..n];
        Success(Parsed(ws, bs[n..]))
    else if |bs| <= WidthSlots then Failure(BufferUnderflow)
    else Failure(IndexOutOfBounds)
  }

  /** `initNextBlock`: the block header, the first value and, when the
      block has miniblocks, the smallest difference and the widths. */
  function InitNextBlock(d: Decoder, w: Word): (r: Outcome<Decoder>)
    ensures r.Success? ==> |r.value.rest| < |d.rest|
  {
    var bl :- ReadUInt(d.rest);
    var nm :- ReadUInt(bl.rest);
    var remaining :- ReadUInt(nm.rest);
    var start :- ReadStart(remaining.rest, w);
    var ml := if nm.value > 0 then TruncDiv(bl.value, nm.value) else 0;
    var d1 := d.(rest := start.rest, blockLength := bl.value, numMiniblocks := nm.value,
      miniblockLength := ml, remaining := remaining.value, position := -1, index := -1,
      current := start.value);
    if nm.value <= 0 then Success(d1)
    else
      var m :- ReadMinDelta(start.rest, w);
      var ws :- ReadWidths(m.rest, nm.value, d.widths);
      Success(d1.(rest := ws.rest, minDelta := Some(m.value), widths := ws.value))
  }

  /** The decoder's accumulator: a Java `long` for ints, so sums wrap at
      64 bits; a BigInteger for longs. */
  function Accumulate(a: int, b: int, w: Word): (r: int)
    ensures (r - (a + b)) % w.Modulus() == 0
  {
    if w.W32? then ToSigned(a + b, W64) else a + b
  }

  /** `setCurrentValueFromMiniBlockBuffer`: the slot at the position, read
      as unsigned, plus the smallest difference, added to the current
      value. */
  function SetCurrent(d: Decoder, w: Word): (r: Outcome<Decoder>)
    ensures r.Success? ==> r.value == d.(current := r.value.current, position := d.position + 1)
  {
    if !(0 <= d.position < BufferSlots) then Failure(IndexOutOfBounds)
    else if d.minDelta.None? then Failure(NullPointer)
    else
      var delta := Accumulate(ToUnsigned(d.buffer[d.position], w), d.minDelta.value, w);
      Success(d.(current := Accumulate(d.current, delta, w), position := d.position + 1))
  }

  /** `initNextMiniBlock`: the next width, then `min(remaining,
      miniblockLength)` values unpacked into the front of the buffer. The
      model refuses a width above the word size, which the encoder never
      writes. */
  function NextMiniblock(d: Decoder, w: Word): (r: Outcome<Decoder>)
    ensures r.Success? ==> r.value.index == d.index + 1 && r.value.position == 0
    ensures r.Success? ==> |r.value.rest| <= |d.rest|
  {
    var index := d.index + 1;
    if !(0 <= index < WidthSlots) then Failure(IndexOutOfBounds)
    else
      var width := d.widths[index];
      var length := if d.remaining < d.miniblockLength then d.remaining else d.miniblockLength;
      if width > w.Bits() then Failure(IllegalArgument("miniblock bit width above the word size"))
      else if length <= 0 then Success(d.(index := index, position := 0))
      else if length > BufferSlots then
        if width > 0 && |d.rest| < BytesFor((BufferSlots + 1) * width) then Failure(BufferUnderflow)
        else Failure(IndexOutOfBounds)
      else
        var p :- ReadPackedInts(d.rest, width, length, w);
        var buffer: Slots := p.value + d.buffer[length..];
        Success(d.(rest := p.rest, buffer := buffer, index := index, position := 0))
  }

  /** `decodeInt` / `decode`: within a block, the first value, or the next
      one from the loaded miniblock, loading the next miniblock when the
      loaded one is used up; after the last value of a block, the next
      block first. */
  function DecodeStep(d: Decoder, w: Word): (r: Outcome<(int, Decoder)>)
    ensures r.Success? ==> w.Holds(r.value.0)
    decreases |d.rest|
  {
    if d.remaining > 0 then
      var d1 :-
        if d.position == -1 then Success(d.(position := 0))
        else if d.index == -1 || d.position >= d.miniblockLength then
          var loaded :- NextMiniblock(d, w);
          SetCurrent(loaded, w)
        else SetCurrent(d, w);
      Success((ToSigned(d1.current, w), d1.(remaining := d.remaining - 1)))
    else
      var d1 :- InitNextBlock(d, w);
      DecodeStep(d1, w)
  }

  /** `decode` as a step function, one call per value. */
  function Step(w: Word): Decoder -> Outcome<(int, Decoder)> {
    d => DecodeStep(d, w)
  }
}
