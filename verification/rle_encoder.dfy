/** The invariant of the `IntFixedBitWidthPackedRunLength` encoder: the
    values it was given are the runs it wrote, then the octuplets it
    buffered, then the values still pending. */
module RleEncoderInvariant {
  import opened Wrappers
  import opened Words
  import opened Bytes
  import opened Encoding
  import opened Seqs
  import opened BitStreams
  import opened IntFixedBitWidthPackedRunLength
  import opened RleRuns


  /** The values an encoder holds, given the runs written to its body and
      the octuplets in its buffer: those, then the octuplet being filled,
      then the counted repeats. */
  function Held(e: Encoder, runs: seq<Run>, octuplets: seq<seq<int32>>): seq<int32> {
    RunsValues(runs) + Concat(octuplets) + e.pending + Repeat(e.rleValue, e.numOccurrences)
  }

  /** The body is the written runs. */
  predicate BodyOf(e: Encoder, runs: seq<Run>) {
    AllWellFormed(runs, e.width) && e.frame.body == RunsBytes(runs, e.width)
  }

  /** The buffer is the packed octuplets, and every value not yet written
      fits the width. */
  predicate BufferOf(e: Encoder, octuplets: seq<seq<int32>>) {
    && AllOctuplets(octuplets, e.width) && |octuplets| == e.numBufferedOctuplets
    && e.buffer == PackAll(octuplets, e.width)
    && (forall k | 0 <= k < |e.pending| :: Fits(e.pending[k], e.width, W32))
    && (e.numOccurrences > 0 ==> Fits(e.rleValue, e.width, W32))
  }

  /** How an encoder holds the values `vs` it was given. */
  predicate Holds(e: Encoder, runs: seq<Run>, octuplets: seq<seq<int32>>, vs: seq<int32>) {
    e.Valid() && BodyOf(e, runs) && BufferOf(e, octuplets) && vs == Held(e, runs, octuplets)
  }

  /** The counters never exceed the number of values. */
  lemma HoldsBounds(e: Encoder, runs: seq<Run>, octuplets: seq<seq<int32>>, vs: seq<int32>)
    requires Holds(e, runs, octuplets, vs)
    ensures 8 * e.numBufferedOctuplets + |e.pending| + e.numOccurrences <= |vs|
  {
  }

  lemma PushValues<T>(a: seq<T>, b: seq<T>, p: seq<T>, x: T)
    ensures (a + b + p + []) + [x] == a + b + (p + [x]) + []
  {
  }

  lemma FillValues<T>(a: seq<T>, b: seq<T>, p: seq<T>, x: T)
    ensures (a + b + p + []) + [x] == a + (b + (p + [x])) + [] + []
  {
  }

  /** `bufferPackedInt` holds the new value after the others. */
  lemma HeldPush(e: Encoder, runs: seq<Run>, octuplets: seq<seq<int32>>, i: int32)
    requires |e.pending| < 8 && e.numOccurrences == 0
    ensures var octuplets' := if |e.pending| == 7 then octuplets + [e.pending + [i]] else octuplets;
      Held(BufferPackedInt(e, i), runs, octuplets') == Held(e, runs, octuplets) + [i]
  {
    var r := BufferPackedInt(e, i);
    assert Repeat(e.rleValue, 0) == [] && Repeat(r.rleValue, 0) == [];
    if |e.pending| == 7 {
      ConcatSnoc(octuplets, e.pending + [i]);
      FillValues(RunsValues(runs), Concat(octuplets), e.pending, i);
    } else {
      PushValues(RunsValues(runs), Concat(octuplets), e.pending, i);
    }
  }

  lemma BufferPush(e: Encoder, octuplets: seq<seq<int32>>, i: int32)
    requires |e.pending| < 8 && BufferOf(e, octuplets) && Fits(i, e.width, W32)
    ensures var octuplets' := if |e.pending| == 7 then octuplets + [e.pending + [i]] else octuplets;
      BufferOf(BufferPackedInt(e, i), octuplets')
  {
    if |e.pending| == 7 {
      BufferFill(e, octuplets, i);
    } else {
      BufferAppend(e, octuplets, i);
    }
  }

  /** The seventh pending value completes an octuplet, which is packed. */
  lemma BufferFill(e: Encoder, octuplets: seq<seq<int32>>, i: int32)
    requires |e.pending| == 7 && BufferOf(e, octuplets) && Fits(i, e.width, W32)
    ensures BufferOf(BufferPackedInt(e, i), octuplets + [e.pending + [i]])
  {
    var octuplet := e.pending + [i];
    assert IsOctuplet(octuplet, e.width);
    PackAllSnoc(octuplets, octuplet, e.width);
  }

  /** An earlier value just joins the pending ones. */
  lemma BufferAppend(e: Encoder, octuplets: seq<seq<int32>>, i: int32)
    requires |e.pending| < 7 && BufferOf(e, octuplets) && Fits(i, e.width, W32)
    ensures BufferOf(BufferPackedInt(e, i), octuplets)
  {
    var r := BufferPackedInt(e, i);
    assert r.pending == e.pending + [i];
    assert forall k | 0 <= k < |r.pending| :: Fits(r.pending[k], e.width, W32) by {
      forall k | 0 <= k < |r.pending| ensures Fits(r.pending[k], e.width, W32) {
        if k < |e.pending| { assert r.pending[k] == e.pending[k]; }
      }
    }
  }

  /** `bufferPackedInt` adds the value after the ones held. */
  lemma BufferHolds(e: Encoder, runs: seq<Run>, octuplets: seq<seq<int32>>, vs: seq<int32>, i: int32)
      returns (octuplets': seq<seq<int32>>)
    requires Holds(e, runs, octuplets, vs) && e.numOccurrences == 0 && Fits(i, e.width, W32)
    ensures Holds(BufferPackedInt(e, i), runs, octuplets', vs + [i])
  {
    octuplets' := if |e.pending| == 7 then octuplets + [e.pending + [i]] else octuplets;
    HeldPush(e, runs, octuplets, i);
    BufferPush(e, octuplets, i);
  }

  /** `count` more values `v` are held after the ones held. */
  lemma {:induction false} BufferRepeatsHolds(e: Encoder, runs: seq<Run>, octuplets: seq<seq<int32>>, vs: seq<int32>, v: int32, count: nat)
      returns (octuplets': seq<seq<int32>>)
    requires Holds(e, runs, octuplets, vs) && e.numOccurrences == 0
    requires count > 0 ==> Fits(v, e.width, W32)
    ensures Holds(BufferRepeats(e, v, count), runs, octuplets', vs + Repeat(v, count))
  {
    if count == 0 {
      octuplets' := octuplets;
      assert vs + Repeat(v, 0) == vs;
    } else {
      var mid := BufferRepeatsHolds(e, runs, octuplets, vs, v, count - 1);
      octuplets' := BufferHolds(BufferRepeats(e, v, count - 1), runs, mid, vs + Repeat(v, count - 1), v);
      AppendAssoc(vs, Repeat(v, count - 1), [v]);
    }
  }

  lemma DropRepeats<T>(a: seq<T>, b: seq<T>, r: seq<T>)
    ensures a + b + [] + r == (a + b + [] + []) + r
  {
  }

  /** `packRLERun` keeps the values held: the repeats move from the counted
      run to packed values. */
  lemma PackRleRunHolds(e: Encoder, runs: seq<Run>, octuplets: seq<seq<int32>>, vs: seq<int32>)
      returns (octuplets': seq<seq<int32>>)
    requires Holds(e, runs, octuplets, vs) && |e.pending| == 0
    ensures Holds(PackRleRun(e), runs, octuplets', vs)
  {
    var e0 := e.(numOccurrences := 0);
    var vs0 := Held(e0, runs, octuplets);
    assert e.pending == [] && Repeat(e0.rleValue, 0) == [];
    DropRepeats(RunsValues(runs), Concat(octuplets), Repeat(e.rleValue, e.numOccurrences));
    assert vs == vs0 + Repeat(e.rleValue, e.numOccurrences);
    octuplets' := BufferRepeatsHolds(e0, runs, octuplets, vs0, e.rleValue, e.numOccurrences);
  }

  lemma FlushValues<T>(a: seq<T>, b: seq<T>, p: seq<T>, r: seq<T>)
    ensures a + b + p + r == (a + b) + [] + p + r
  {
  }

  /** `flushBitPacked` turns the buffered octuplets into a written run. */
  lemma FlushBitPackedHolds(e: Encoder, runs: seq<Run>, octuplets: seq<seq<int32>>, vs: seq<int32>)
    requires Holds(e, runs, octuplets, vs) && 0 < |octuplets| < TWO_31
    ensures Holds(FlushBitPacked(e), runs + [PackedRun(octuplets)], [], vs)
  {
    var run := PackedRun(octuplets);
    var r := FlushBitPacked(e);
    RunsSnoc(runs, run, e.width);
    assert BodyOf(r, runs + [run]) by {
      AppendAssoc(e.frame.body, WriteUInt(RunHeader(|octuplets|, true)), e.buffer);
      assert WellFormed(run, e.width);
    }
    assert vs == Held(r, runs + [run], []) by {
      assert Concat([]) == [];
      FlushValues(RunsValues(runs), Concat(octuplets), e.pending, Repeat(e.rleValue, e.numOccurrences));
    }
  }

  lemma RleValues<T>(a: seq<T>, r: seq<T>)
    ensures a + [] + [] + r == (a + r) + [] + [] + []
  {
  }

  /** The run-length half of `flushRLE`: the counted repeats become a
      written run. */
  lemma FlushRleRunHolds(e: Encoder, runs: seq<Run>, vs: seq<int32>)
    requires Holds(e, runs, [], vs) && 0 < e.numOccurrences < TWO_31
    ensures Holds(FlushRle(e), runs + [RleRun(e.numOccurrences, e.rleValue)], [], vs)
  {
    var run := RleRun(e.numOccurrences, e.rleValue);
    var r := FlushRle(e);
    RunsSnoc(runs, run, e.width);
    assert BodyOf(r, runs + [run]) by {
      assert WellFormed(run, e.width);
    }
    assert vs == Held(r, runs + [run], []) by {
      assert e.pending == [] && Concat([]) == [] && Repeat(r.rleValue, 0) == [];
      RleValues(RunsValues(runs), RunValues(run));
    }
  }

  /** `flushRLE` writes the buffered octuplets, if any, then the counted
      run. */
  lemma FlushRleHolds(e: Encoder, runs: seq<Run>, octuplets: seq<seq<int32>>, vs: seq<int32>)
      returns (runs': seq<Run>)
    requires Holds(e, runs, octuplets, vs) && e.numOccurrences > 0 && |vs| < TWO_31
    ensures Holds(FlushRle(e), runs', [], vs)
  {
    HoldsBounds(e, runs, octuplets, vs);
    if |octuplets| > 0 {
      var e1 := FlushBitPacked(e);
      FlushBitPackedHolds(e, runs, octuplets, vs);
      FlushRleRunHolds(e1, runs + [PackedRun(octuplets)], vs);
      runs' := runs + [PackedRun(octuplets)] + [RleRun(e.numOccurrences, e.rleValue)];
      assert FlushRle(e1) == FlushRle(e);
    } else {
      FlushRleRunHolds(e, runs, vs);
      runs' := runs + [RleRun(e.numOccurrences, e.rleValue)];
    }
  }

  lemma StartValues<T>(a: seq<T>, x: T)
    ensures a + [x] == a + [] + [] + [x]
  {
  }

  /** A new run of repeats holds the value after the others. */
  lemma StartHolds(e: Encoder, runs: seq<Run>, octuplets: seq<seq<int32>>, vs: seq<int32>, i: int32)
    requires Holds(e, runs, octuplets, vs) && |e.pending| == 0 && e.numOccurrences == 0
    requires Fits(i, e.width, W32)
    ensures Holds(e.(numOccurrences := 1, rleValue := i), runs, octuplets, vs + [i])
  {
    var r := e.(numOccurrences := 1, rleValue := i);
    assert Repeat(e.rleValue, 0) == [] && Repeat(i, 1) == [i];
    assert vs == RunsValues(runs) + Concat(octuplets) + [] + [];
    StartValues(RunsValues(runs) + Concat(octuplets), i);
  }

  /** One more repeat of the counted value. */
  lemma RepeatHolds(e: Encoder, runs: seq<Run>, octuplets: seq<seq<int32>>, vs: seq<int32>)
    requires Holds(e, runs, octuplets, vs) && |e.pending| == 0 && e.numOccurrences > 0
    ensures Holds(e.(numOccurrences := e.numOccurrences + 1), runs, octuplets, vs + [e.rleValue])
  {
    var a := RunsValues(runs) + Concat(octuplets) + [];
    assert vs == a + Repeat(e.rleValue, e.numOccurrences);
    AppendAssoc(a, Repeat(e.rleValue, e.numOccurrences), [e.rleValue]);
  }

  /** `encodeInt` holds the new value after the others, whichever way it
      goes. */
  lemma EncodeIntHolds(e: Encoder, runs: seq<Run>, octuplets: seq<seq<int32>>, vs: seq<int32>, i: int32)
      returns (runs': seq<Run>, octuplets': seq<seq<int32>>)
    requires Holds(e, runs, octuplets, vs) && Fits(i, e.width, W32) && |vs| < TWO_31
    ensures Holds(EncodeInt(e, i), runs', octuplets', vs + [i])
    decreases e.numOccurrences
  {
    if |e.pending| == 0 {
      if e.numOccurrences == 0 {
        StartHolds(e, runs, octuplets, vs, i);
        runs', octuplets' := runs, octuplets;
      } else if e.rleValue == i {
        RepeatHolds(e, runs, octuplets, vs);
        runs', octuplets' := runs, octuplets;
      } else if e.numOccurrences >= RleThreshold(e.width) {
        var flushed := FlushRleHolds(e, runs, octuplets, vs);
        runs', octuplets' := EncodeIntHolds(FlushRle(e), flushed, [], vs, i);
      } else {
        var packed := PackRleRunHolds(e, runs, octuplets, vs);
        runs', octuplets' := EncodeIntHolds(PackRleRun(e), runs, packed, vs, i);
      }
    } else {
      octuplets' := BufferHolds(e, runs, octuplets, vs, i);
      runs' := runs;
    }
  }

  /** A fresh encoder holds nothing. */
  lemma NewHolds(width: Width)
    ensures Holds(NewEncoder(width), [], [], [])
  {
    assert Held(NewEncoder(width), [], []) == [] + [] + [] + [];
  }

  /** The count is no part of the invariant. */
  lemma CountHolds(e: Encoder, runs: seq<Run>, octuplets: seq<seq<int32>>, vs: seq<int32>, n: nat)
    requires Holds(e, runs, octuplets, vs)
    ensures Holds(e.(frame := e.frame.(numValues := n)), runs, octuplets, vs)
  {
    var e1 := e.(frame := e.frame.(numValues := n));
    assert e1.frame.body == e.frame.body && e1.width == e.width;
    assert Held(e1, runs, octuplets) == Held(e, runs, octuplets);
  }

  /** `encode` holds the new value after the others. */
  lemma EncodeHolds(e: Encoder, runs: seq<Run>, octuplets: seq<seq<int32>>, vs: seq<int32>, i: int32)
      returns (runs': seq<Run>, octuplets': seq<seq<int32>>)
    requires Holds(e, runs, octuplets, vs) && Fits(i, e.width, W32) && |vs| < TWO_31
    ensures Holds(Encode(e, i), runs', octuplets', vs + [i])
  {
    var e1 := e.(frame := e.frame.(numValues := e.frame.numValues + 1));
    CountHolds(e, runs, octuplets, vs, e.frame.numValues + 1);
    runs', octuplets' := EncodeIntHolds(e1, runs, octuplets, vs, i);
    assert Encode(e, i) == EncodeInt(e1, i);
  }

  /** Every value encoded from a fresh encoder is held, in order. */
  lemma {:induction false} EncodeAllHolds(width: Width, vs: seq<int32>) returns (runs: seq<Run>, octuplets: seq<seq<int32>>)
    requires |vs| < TWO_31 && forall k | 0 <= k < |vs| :: Fits(vs[k], width, W32)
    ensures Holds(EncodeAll(width, vs), runs, octuplets, vs)
  {
    if |vs| == 0 {
      runs, octuplets := [], [];
      NewHolds(width);
    } else {
      var front, last := vs[..|vs| - 1], vs[|vs| - 1];
      var runs0, octuplets0 := EncodeAllHolds(width, front);
      var e := EncodeAll(width, front);
      runs, octuplets := EncodeHolds(e, runs0, octuplets0, front, last);
      var r := EncodeAll(width, vs);
      assert r == Encode(e, last);
      SplitLast(vs);
      assert Holds(r, runs, octuplets, vs);
    }
  }

  lemma PadValues<T>(a: seq<T>, b: seq<T>, p: seq<T>, z: seq<T>)
    ensures (a + b + p + []) + z == a + (b + (p + z)) + [] + []
  {
  }

  /** Padding the partial octuplet: it joins the buffer, and the zeros are
      held after the values. */
  lemma PadHolds(e: Encoder, runs: seq<Run>, octuplets: seq<seq<int32>>, vs: seq<int32>)
    requires Holds(e, runs, octuplets, vs) && |e.pending| > 0
    ensures Holds(PadOctuplet(e), runs, octuplets + [Padded(e)], vs + Repeat(0, 8 - |e.pending|))
  {
    PadBuffer(e, octuplets);
    PadHeld(e, runs, octuplets);
  }

  lemma PadBuffer(e: Encoder, octuplets: seq<seq<int32>>)
    requires BufferOf(e, octuplets) && 0 < |e.pending| < 8
    ensures BufferOf(PadOctuplet(e), octuplets + [Padded(e)])
  {
    var octuplet := Padded(e);
    assert IsOctuplet(octuplet, e.width);
    PackAllSnoc(octuplets, octuplet, e.width);
  }

  lemma PadHeld(e: Encoder, runs: seq<Run>, octuplets: seq<seq<int32>>)
    requires 0 < |e.pending| < 8 && e.numOccurrences == 0
    ensures Held(PadOctuplet(e), runs, octuplets + [Padded(e)]) == Held(e, runs, octuplets) + Repeat(0, 8 - |e.pending|)
  {
    var octuplet := Padded(e);
    assert Repeat(e.rleValue, e.numOccurrences) == [];
    ConcatSnoc(octuplets, octuplet);
    PadValues(RunsValues(runs), Concat(octuplets), e.pending, Repeat(0, 8 - |e.pending|));
  }

  /** `finish` with a partial octuplet: padded, it is flushed with the
      buffered octuplets as one run. */
  lemma FinishPaddedHolds(e: Encoder, runs: seq<Run>, octuplets: seq<seq<int32>>, vs: seq<int32>)
    requires Holds(e, runs, octuplets, vs) && |vs| < TWO_31 && |e.pending| > 0
    ensures Holds(Finish(e), runs + [PackedRun(octuplets + [Padded(e)])], [], vs + Repeat(0, 8 - |e.pending|))
  {
    HoldsBounds(e, runs, octuplets, vs);
    PadHolds(e, runs, octuplets, vs);
    FlushBitPackedHolds(PadOctuplet(e), runs, octuplets + [Padded(e)], vs + Repeat(0, 8 - |e.pending|));
  }

  /** A finished encoder's body holds nothing but its written runs. */
  lemma FinishedRuns(e: Encoder, runs: seq<Run>, xs: seq<int32>)
    requires Holds(e, runs, [], xs) && e.pending == [] && e.numOccurrences == 0
    ensures e.frame.body == RunsBytes(runs, e.width) && AllWellFormed(runs, e.width)
    ensures RunsValues(runs) == xs
  {
    assert Concat([]) == [] && Repeat(e.rleValue, 0) == [];
    assert RunsValues(runs) + [] + [] + [] == RunsValues(runs);
  }

  /** The invariant across `finish` when no octuplet is partial. */
  lemma FinishUnpaddedHolds(e: Encoder, runs: seq<Run>, octuplets: seq<seq<int32>>, vs: seq<int32>)
      returns (runs': seq<Run>)
    requires Holds(e, runs, octuplets, vs) && |vs| < TWO_31 && |e.pending| == 0
    ensures Holds(Finish(e), runs', [], vs)
  {
    HoldsBounds(e, runs, octuplets, vs);
    if e.numOccurrences > 0 {
      runs' := FlushRleHolds(e, runs, octuplets, vs);
    } else if e.numBufferedOctuplets > 0 {
      FlushBitPackedHolds(e, runs, octuplets, vs);
      runs' := runs + [PackedRun(octuplets)];
    } else {
      runs' := runs;
    }
  }

  /** After `finish` the body is a sequence of well-formed runs holding the
      values, followed by the zeros that padded the last octuplet. */
  lemma FinishHolds(e: Encoder, runs: seq<Run>, octuplets: seq<seq<int32>>, vs: seq<int32>)
      returns (runs': seq<Run>)
    requires Holds(e, runs, octuplets, vs) && |vs| < TWO_31
    ensures var pad := if |e.pending| > 0 then 8 - |e.pending| else 0;
      && Finish(e).frame.body == RunsBytes(runs', e.width) && AllWellFormed(runs', e.width)
      && RunsValues(runs') == vs + Repeat(0, pad)
  {
    if |e.pending| > 0 {
      FinishPaddedHolds(e, runs, octuplets, vs);
      runs' := runs + [PackedRun(octuplets + [Padded(e)])];
      FinishedRuns(Finish(e), runs', vs + Repeat(0, 8 - |e.pending|));
    } else {
      runs' := FinishUnpaddedHolds(e, runs, octuplets, vs);
      FinishedRuns(Finish(e), runs', vs);
      assert vs + Repeat(0, 0) == vs;
    }
  }
}
