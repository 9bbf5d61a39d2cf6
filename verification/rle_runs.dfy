/** The runs an `IntFixedBitWidthPackedRunLength` body is made of: what
    each one stands for and how it is written. */
module RleRuns {
  import opened Wrappers
  import opened Words
  import opened Bytes
  import opened Encoding
  import opened Seqs
  import opened BitStreams
  import opened IntFixedBitWidthPackedRunLength


  /** A run as the decoder reads it back. */
  datatype Run = RleRun(count: nat, value: int32) | PackedRun(octuplets: seq<seq<int32>>)

  /** Eight values, each fitting the width. */
  predicate IsOctuplet(octuplet: seq<int32>, width: Width) {
    |octuplet| == 8 && forall k | 0 <= k < 8 :: Fits(octuplet[k], width, W32)
  }

  predicate AllOctuplets(octuplets: seq<seq<int32>>, width: Width) {
    forall j | 0 <= j < |octuplets| :: IsOctuplet(octuplets[j], width)
  }

  /** The octuplets' values one after the other. */
  function Concat(octuplets: seq<seq<int32>>): (r: seq<int32>)
    ensures (forall j | 0 <= j < |octuplets| :: |octuplets[j]| == 8) ==> |r| == 8 * |octuplets|
  {
    if |octuplets| == 0 then [] else octuplets[0] + Concat(octuplets[1..])
  }

  /** The octuplets packed one after the other, as the octuplet buffer
      holds them. */
  function PackAll(octuplets: seq<seq<int32>>, width: Width): (r: seq<byte>)
    ensures |octuplets| == 0 ==> r == []
  {
    if |octuplets| == 0 then []
    else WritePackedInts(octuplets[0], width, W32) + PackAll(octuplets[1..], width)
  }

  lemma MulSucc(a: nat, n: nat)
    requires n > 0
    ensures a * n == a + a * (n - 1)
  {
  }

  /** Each packed octuplet takes `width` bytes. */
  lemma {:induction false} PackAllLength(octuplets: seq<seq<int32>>, width: Width)
    requires forall j | 0 <= j < |octuplets| :: |octuplets[j]| == 8
    ensures |PackAll(octuplets, width)| == width * |octuplets|
  {
    if |octuplets| > 0 {
      PackAllLength(octuplets[1..], width);
      OctupletBytes(width);
      assert |octuplets[0]| * width == 8 * width;
      MulSucc(width, |octuplets|);
    }
  }

  lemma {:induction false} ConcatSnoc(octuplets: seq<seq<int32>>, octuplet: seq<int32>)
    ensures Concat(octuplets + [octuplet]) == Concat(octuplets) + octuplet
  {
    if |octuplets| > 0 {
      assert (octuplets + [octuplet])[1..] == octuplets[1..] + [octuplet];
      ConcatSnoc(octuplets[1..], octuplet);
      AppendAssoc(octuplets[0], Concat(octuplets[1..]), octuplet);
    } else {
      assert [octuplet][1..] == [];
    }
  }

  lemma {:induction false} PackAllSnoc(octuplets: seq<seq<int32>>, octuplet: seq<int32>, width: Width)
    ensures PackAll(octuplets + [octuplet], width) == PackAll(octuplets, width) + WritePackedInts(octuplet, width, W32)
  {
    if |octuplets| > 0 {
      assert (octuplets + [octuplet])[1..] == octuplets[1..] + [octuplet];
      PackAllSnoc(octuplets[1..], octuplet, width);
      AppendAssoc(WritePackedInts(octuplets[0], width, W32), PackAll(octuplets[1..], width), WritePackedInts(octuplet, width, W32));
    } else {
      assert [octuplet][1..] == [];
    }
  }

  /** The values a run stands for. */
  function RunValues(run: Run): seq<int32> {
    match run
    case RleRun(count, value) => Repeat(value, count)
    case PackedRun(octuplets) => Concat(octuplets)
  }

  /** The bytes a run is written as: its header, then the repeated value or
      the packed octuplets. */
  function RunBytes(run: Run, width: Width): seq<byte> {
    match run
    case RleRun(count, value) => WriteUInt(RunHeader(count, false)) + WritePackedInt(value, width)
    case PackedRun(octuplets) => WriteUInt(RunHeader(|octuplets|, true)) + PackAll(octuplets, width)
  }

  /** The runs the encoder writes: never empty, counts that fit a Java int,
      values that fit the width. */
  predicate WellFormed(run: Run, width: Width) {
    match run
    case RleRun(count, value) => 0 < count < TWO_31 && Fits(value, width, W32)
    case PackedRun(octuplets) => 0 < |octuplets| < TWO_31 && AllOctuplets(octuplets, width)
  }

  predicate AllWellFormed(runs: seq<Run>, width: Width) {
    forall j | 0 <= j < |runs| :: WellFormed(runs[j], width)
  }

  function RunsValues(runs: seq<Run>): seq<int32> {
    if |runs| == 0 then [] else RunsValues(runs[..|runs| - 1]) + RunValues(runs[|runs| - 1])
  }

  function RunsBytes(runs: seq<Run>, width: Width): seq<byte> {
    if |runs| == 0 then [] else RunsBytes(runs[..|runs| - 1], width) + RunBytes(runs[|runs| - 1], width)
  }

  lemma RunsSnoc(runs: seq<Run>, run: Run, width: Width)
    ensures RunsValues(runs + [run]) == RunsValues(runs) + RunValues(run)
    ensures RunsBytes(runs + [run], width) == RunsBytes(runs, width) + RunBytes(run, width)
  {
    assert (runs + [run])[..|runs|] == runs;
  }
}
