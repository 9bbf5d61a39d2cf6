/** Further properties of the `IntFixedBitWidthPackedRunLength` encoder:
    how a broken run is written, `finish`, `reset`, and the length
    estimate. */
module RleProperties {
  import opened Wrappers
  import opened Words
  import opened Bytes
  import opened Encoding
  import opened Seqs
  import opened BitStreams
  import opened IntFixedBitWidthPackedRunLength
  import opened RleRuns
  import opened RleEncoderInvariant

  // ---------------------------------------------------------------------
  // Choosing between the two kinds of run

  /** When a value breaks a run of repeats that reached the threshold, the
      run is written as a run-length run (after any buffered octuplets) and
      the new value starts the next run. */
  lemma BreakLongRun(e: Encoder, i: int32)
    requires e.Valid() && e.pending == [] && e.numOccurrences > 0 && e.rleValue != i
    requires e.numOccurrences >= RleThreshold(e.width)
    ensures var r := EncodeInt(e, i);
      var flushed := if e.numBufferedOctuplets > 0 then FlushBitPacked(e).frame.body else e.frame.body;
      && r.frame.body == flushed + RunBytes(RleRun(e.numOccurrences, e.rleValue), e.width)
      && r.numOccurrences == 1 && r.rleValue == i && r.pending == [] && r.numBufferedOctuplets == 0
  {
  }

  /** When a value breaks a shorter run, nothing is written: the repeats
      join the packed values, and so does the new value unless the repeats
      completed an octuplet, in which case it starts a run. */
  lemma BreakShortRun(e: Encoder, i: int32)
    requires e.Valid() && e.pending == [] && e.numOccurrences > 0 && e.rleValue != i
    requires e.numOccurrences < RleThreshold(e.width)
    ensures var r := EncodeInt(e, i);
      && r.frame == e.frame && r.numOccurrences <= 1
      && 8 * r.numBufferedOctuplets + |r.pending| + r.numOccurrences == 8 * e.numBufferedOctuplets + e.numOccurrences + 1
      && (r.numOccurrences == 1 <==> e.numOccurrences % 8 == 0)
  {
    var p := PackRleRun(e);
    assert EncodeInt(e, i) == EncodeInt(p, i);
    DivModUnique(e.numOccurrences, 8, p.numBufferedOctuplets - e.numBufferedOctuplets, |p.pending|);
    if |p.pending| == 0 {
      assert EncodeInt(p, i) == p.(numOccurrences := 1, rleValue := i);
    } else {
      assert EncodeInt(p, i) == BufferPackedInt(p, i);
    }
  }

  /** At width 0 the threshold is negative, so every broken run is written
      as a run-length run. */
  lemma ZeroWidthAlwaysRle(e: Encoder, i: int32)
    requires e.Valid() && e.width == 0 && e.pending == [] && e.numOccurrences > 0 && e.rleValue != i
    ensures EncodeInt(e, i).numOccurrences == 1 && EncodeInt(e, i).pending == []
  {
    BreakLongRun(e, i);
  }

  // ---------------------------------------------------------------------
  // Finishing and resetting

  /** `finish` leaves nothing to flush, so finishing again changes
      nothing and `writeTo` can be called twice. */
  lemma FinishIdempotent(e: Encoder)
    requires e.Valid()
    ensures Finish(Finish(e)) == Finish(e)
    ensures WriteTo(Finish(e)) == WriteTo(e)
  {
  }

  /** A reset encoder writes a zero count and nothing else. */
  lemma ResetWritesNothing(e: Encoder)
    ensures WriteTo(Reset(e)) == [0] && GetLength(Reset(e)) == 1
  {
    ResetFrame();
  }

  // ---------------------------------------------------------------------
  // Length estimate

  /** The as-written estimate can fall below what is already written: an
      encoder of width 1 whose body holds 16 bytes is estimated at 8. */
  lemma EstimateAsWrittenTooSmall()
    ensures var e := Encoder(Frame(16, seq(16, _ => 0)), 0, 0, [], [], 0, 1);
      e.Valid() && EstimatedLengthAsWritten(e) == 8 && GetLength(e) > 16
  {
  }

  /** The intended estimate covers what is written, the buffered
      octuplets, and the octuplet being filled. */
  lemma EstimateCovers(e: Encoder, octuplets: seq<seq<int32>>)
    requires BufferOf(e, octuplets)
    ensures EstimatedLength(e) > GetLength(e)
    ensures e.numOccurrences == 0 ==>
      EstimatedLength(e) > GetLength(e) + |e.buffer| + (if |e.pending| > 0 then e.width else 0)
  {
    if e.numOccurrences == 0 {
      PackAllLength(octuplets, e.width);
      var perOctuplet: nat := 8 * e.width;
      ScaleBytes(e.width, e.numBufferedOctuplets);
      assert |e.buffer| <= perOctuplet * e.numBufferedOctuplets;
    }
  }

  lemma ScaleBytes(w: nat, n: nat)
    ensures w * n <= (8 * w) * n
  {
  }
}
