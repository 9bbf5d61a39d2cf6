/** `Bundle`: a batch of records stored column by column, one list of
    values per column, with the batch size, `take`/`drop`, column-wise
    equality, the factory that stripes records into a bundle, and the
    iterator that walks a repeated column's lists as one sequence. */
module Bundles {
  import opened Wrappers
  import opened Words
  import opened Seqs

  /** `maxBundleSize`, `isColumnRepeated` and `columnValues`. */
  datatype Bundle<T> = Bundle(maxBundleSize: int32, isColumnRepeated: seq<bool>, columnValues: seq<seq<T>>)

  /** `size`: the length of the first column; with no columns the array
      access throws. */
  function Size<T>(b: Bundle<T>): (r: Outcome<int>)
    ensures r.Success? <==> |b.columnValues| > 0
    ensures r.Success? ==> r.value == |b.columnValues[0]|
  {
    if |b.columnValues| == 0 then Failure(IndexOutOfBounds) else Success(|b.columnValues[0]|)
  }

  /** Whether `subList` can cut every column at `n`. */
  predicate CutsAll<T>(columns: seq<seq<T>>, n: int) {
    forall i | 0 <= i < |columns| :: 0 <= n <= |columns[i]|
  }

  /** `take(n)`: the first `n` values of every column, and size `n`;
      `subList` throws when a column is shorter than `n` or `n` is
      negative. */
  function Take<T>(b: Bundle<T>, n: int32): (r: Outcome<Bundle<T>>)
    ensures r.Success? <==> CutsAll(b.columnValues, n)
    ensures r.Success? ==> && r.value.maxBundleSize == n && r.value.isColumnRepeated == b.isColumnRepeated
                           && |r.value.columnValues| == |b.columnValues|
                           && forall i | 0 <= i < |b.columnValues| :: n <= |b.columnValues[i]| && r.value.columnValues[i] == b.columnValues[i][..n]
  {
    if !CutsAll(b.columnValues, n) then Failure(IndexOutOfBounds)
    else Success(Bundle(n, b.isColumnRepeated, seq(|b.columnValues|, i requires 0 <= i < |b.columnValues| =>
      assert 0 <= n <= |b.columnValues[i]|; b.columnValues[i][..n])))
  }

  /** `drop(n)`: the values of every column from the `n`-th on, and size
      `maxBundleSize - n` (an `int` difference). */
  function Drop<T>(b: Bundle<T>, n: int32): (r: Outcome<Bundle<T>>)
    ensures r.Success? <==> CutsAll(b.columnValues, n)
    ensures r.Success? ==> && r.value.maxBundleSize == ToSigned(b.maxBundleSize - n, W32)
                           && r.value.isColumnRepeated == b.isColumnRepeated
                           && |r.value.columnValues| == |b.columnValues|
                           && forall i | 0 <= i < |b.columnValues| :: 0 <= n <= |b.columnValues[i]| && r.value.columnValues[i] == b.columnValues[i][n..]
  {
    if !CutsAll(b.columnValues, n) then Failure(IndexOutOfBounds)
    else Success(Bundle(ToSigned(b.maxBundleSize - n, W32), b.isColumnRepeated,
      seq(|b.columnValues|, i requires 0 <= i < |b.columnValues| =>
        assert 0 <= n <= |b.columnValues[i]|; b.columnValues[i][n..])))
  }

  /** `take(n)` and `drop(n)` split every column at `n`: their columns,
      joined, are the bundle's, and their sizes add up to the bundle's. */
  lemma TakeDropSplit<T>(b: Bundle<T>, n: int32)
    requires Take(b, n).Success?
    requires W32.Holds(b.maxBundleSize - n)
    ensures Drop(b, n).Success?
    ensures var t, d := Take(b, n).value, Drop(b, n).value;
      && |t.columnValues| == |d.columnValues| == |b.columnValues|
      && (forall i | 0 <= i < |b.columnValues| :: t.columnValues[i] + d.columnValues[i] == b.columnValues[i])
      && t.maxBundleSize + d.maxBundleSize == b.maxBundleSize
  {
    var t, d := Take(b, n).value, Drop(b, n).value;
    forall i | 0 <= i < |b.columnValues|
      ensures t.columnValues[i] + d.columnValues[i] == b.columnValues[i]
    {
      assert 0 <= n <= |b.columnValues[i]|;
      assert b.columnValues[i][..n] + b.columnValues[i][n..] == b.columnValues[i];
    }
  }

  /** After `take(n)`, the size is `n`, and after `drop(n)` it is the
      size less `n`. */
  lemma TakeDropSize<T>(b: Bundle<T>, n: int32)
    requires |b.columnValues| > 0 && Take(b, n).Success?
    ensures Size(Take(b, n).value) == Success(n as int)
    ensures Size(Drop(b, n).value) == Success(Size(b).value - n)
  {
  }

  /** `equals`: the same number of columns, and equal lists column by
      column; the sizes and repetition flags are not compared. */
  method Equals<T(==)>(a: Bundle<T>, b: Bundle<T>) returns (r: bool)
    ensures r <==> a.columnValues == b.columnValues
  {
    if |a.columnValues| != |b.columnValues| {
      return false;
    }
    for i := 0 to |a.columnValues|
      invariant a.columnValues[..i] == b.columnValues[..i]
    {
      if a.columnValues[i] != b.columnValues[i] {
        return false;
      }
      assert a.columnValues[..i + 1] == a.columnValues[..i] + [a.columnValues[i]];
      assert b.columnValues[..i + 1] == b.columnValues[..i] + [b.columnValues[i]];
    }
    assert a.columnValues[..|a.columnValues|] == a.columnValues;
    assert b.columnValues[..|b.columnValues|] == b.columnValues;
    return true;
  }

  // ---------------------------------------------------------------------
  // Factory

  /** The factory's `isColumnRepeated`: a column is repeated exactly when
      its repetition level is positive. */
  function RepeatedFlags(repetitionLevels: seq<int>): (r: seq<bool>)
    ensures |r| == |repetitionLevels|
    ensures forall i | 0 <= i < |r| :: r[i] <==> repetitionLevels[i] > 0
  {
    seq(|repetitionLevels|, i requires 0 <= i < |repetitionLevels| => repetitionLevels[i] > 0)
  }

  /** What `stripeFn.invoke(record, buffer)` does: whether it succeeded,
      and the value it left in each slot of the cleared buffer. */
  datatype Striped<T> = Striped(success: bool, buffer: nat -> T)

  /** The buffers of the records the stripe function accepted, in order. */
  function Accepted<R, T>(stripe: R -> Striped<T>, records: seq<R>): (r: seq<nat -> T>)
    ensures |r| <= |records|
    ensures |r| == |records| <==> forall k | 0 <= k < |records| :: stripe(records[k]).success
  {
    if |records| == 0 then []
    else
      var front := Accepted(stripe, records[..|records| - 1]);
      assert forall k | 0 <= k < |records| - 1 :: records[..|records| - 1][k] == records[k];
      var s := stripe(records[|records| - 1]);
      if s.success then front + [s.buffer] else front
  }

  /** `Factory.stripe`: the bundle size is the number of records, and each
      accepted record adds its buffer slot `i` to column `i`. */
  method Stripe<R, T>(repetitionLevels: seq<int>, stripe: R -> Striped<T>, records: seq<R>)
    returns (b: Bundle<T>)
    requires |records| < TWO_31
    ensures b.maxBundleSize == |records| && b.isColumnRepeated == RepeatedFlags(repetitionLevels)
    ensures |b.columnValues| == |repetitionLevels|
    ensures forall i | 0 <= i < |b.columnValues| ::
      |b.columnValues[i]| == |Accepted(stripe, records)|
      && forall k | 0 <= k < |b.columnValues[i]| :: b.columnValues[i][k] == Accepted(stripe, records)[k](i)
  {
    var numColumns := |repetitionLevels|;
    var columns: seq<seq<T>> := seq(numColumns, _ => []);
    for j := 0 to |records|
      invariant |columns| == numColumns
      invariant forall i | 0 <= i < numColumns ::
        |columns[i]| == |Accepted(stripe, records[..j])|
        && forall k | 0 <= k < |columns[i]| :: columns[i][k] == Accepted(stripe, records[..j])[k](i)
    {
      assert records[..j + 1][..j] == records[..j];
      var s := stripe(records[j]);
      if s.success {
        columns := seq(numColumns, i requires 0 <= i < numColumns => columns[i] + [s.buffer(i)]);
      }
    }
    assert records[..|records|] == records;
    b := Bundle(|records|, RepeatedFlags(repetitionLevels), columns);
  }

  // ---------------------------------------------------------------------
  // The iterator over a repeated column

  /** `RepeatedValuesIterator`: the lists not yet started, what is left of
      the current one (`null` once all are used up), `previousValue` and
      `isPreviousCalled`. */
  datatype RepeatedIter<T> = RepeatedIter(
    lists: seq<seq<T>>, current: Option<seq<T>>, previousValue: Option<T>, isPreviousCalled: bool)

  /** The constructor starts on the first list, and throws when there is
      none. */
  function NewRepeatedIter<T>(lists: seq<seq<T>>): (r: Outcome<RepeatedIter<T>>)
    ensures r.Failure? <==> |lists| == 0
  {
    if |lists| == 0 then Failure(NoSuchElement)
    else Success(RepeatedIter(lists[1..], Some(lists[0]), None, false))
  }

  /** What the iterator will return: the pushed-back value, if any, then
      the rest of the current list and the lists after it. */
  function Remaining<T>(it: RepeatedIter<T>): seq<Option<T>> {
    (if it.isPreviousCalled then [it.previousValue] else [])
    + (if it.current.Some? then Somes(it.current.value + Flatten(it.lists)) else [])
  }

  function Somes<T>(xs: seq<T>): (r: seq<Option<T>>)
    ensures |r| == |xs| && forall k | 0 <= k < |xs| :: r[k] == Some(xs[k])
  {
    seq(|xs|, k requires 0 <= k < |xs| => Some(xs[k]))
  }

  /** `step`: moves to the next list, or to `null` after the last. */
  function StepList<T>(it: RepeatedIter<T>): (r: RepeatedIter<T>)
    requires it.current.Some? && |it.current.value| == 0
    ensures Remaining(r) == Remaining(it)
    ensures |r.lists| < |it.lists| || r.current.None?
  {
    if |it.lists| > 0 then
      FlattenCons(it.lists);
      it.(lists := it.lists[1..], current := Some(it.lists[0]))
    else it.(current := None)
  }

  /** `hasNext`, which may step past exhausted lists. */
  function HasNext<T>(it: RepeatedIter<T>): (r: (bool, RepeatedIter<T>))
    ensures r.0 <==> |Remaining(it)| > 0
    ensures Remaining(r.1) == Remaining(it) && r.1.isPreviousCalled == it.isPreviousCalled
    decreases |it.lists|, if it.current.Some? then 1 else 0
  {
    if it.isPreviousCalled then (true, it)
    else if it.current.None? then (false, it)
    else if |it.current.value| > 0 then (true, it)
    else HasNext(StepList(it))
  }

  /** `next`: the pushed-back value, or the next value of the lists
      (stepping past exhausted ones), or `NoSuchElementException`. */
  function Next<T>(it: RepeatedIter<T>): (r: Outcome<(Option<T>, RepeatedIter<T>)>)
    ensures r.Failure? <==> |Remaining(it)| == 0
    ensures r.Success? ==> [r.value.0] + Remaining(r.value.1) == Remaining(it)
    ensures r.Success? ==> r.value.1.previousValue == r.value.0 && !r.value.1.isPreviousCalled
    decreases |it.lists|, if it.current.Some? then 1 else 0
  {
    if it.isPreviousCalled then Success((it.previousValue, it.(isPreviousCalled := false)))
    else if it.current.None? then Failure(NoSuchElement)
    else if |it.current.value| == 0 then Next(StepList(it))
    else
      var v := it.current.value[0];
      assert it.current.value + Flatten(it.lists) == [v] + (it.current.value[1..] + Flatten(it.lists));
      Success((Some(v), it.(current := Some(it.current.value[1..]), previousValue := Some(v))))
  }

  /** `previous`: pushes the last value back, so that the next `next`
      returns it again. */
  function Previous<T>(it: RepeatedIter<T>): (r: (Option<T>, RepeatedIter<T>))
    ensures r.0 == it.previousValue && r.1.isPreviousCalled
    ensures !it.isPreviousCalled ==> Remaining(r.1) == [it.previousValue] + Remaining(it)
  {
    (it.previousValue, it.(isPreviousCalled := true))
  }

  /** `next` after `previous` returns the value `previous` returned. */
  lemma PreviousThenNext<T>(it: RepeatedIter<T>)
    ensures Next(Previous(it).1).Success? && Next(Previous(it).1).value.0 == Previous(it).0
  {
  }

  /** `n` calls to `next`. */
  function NextN<T>(it: RepeatedIter<T>, n: nat): Outcome<seq<Option<T>>>
    decreases n
  {
    if n == 0 then Success([])
    else
      match Next(it)
      case Failure(e) => Failure(e)
      case Success((v, it1)) =>
        match NextN(it1, n - 1)
        case Failure(e) => Failure(e)
        case Success(vs) => Success([v] + vs)
  }

  lemma {:induction false} NextNRemaining<T>(it: RepeatedIter<T>, n: nat)
    requires n <= |Remaining(it)|
    ensures NextN(it, n) == Success(Remaining(it)[..n])
    decreases n
  {
    if n > 0 {
      var r := Next(it).value;
      NextNRemaining(r.1, n - 1);
      assert Remaining(it)[..n] == [r.0] + Remaining(r.1)[..n - 1];
    }
  }

  /** Iterating over a repeated column yields the values of its lists, in
      order, one list after another. */
  lemma IterYieldsFlatten<T>(lists: seq<seq<T>>)
    requires |lists| > 0
    ensures var it := NewRepeatedIter(lists).value;
      NextN(it, |Flatten(lists)|) == Success(Somes(Flatten(lists)))
  {
    var it := NewRepeatedIter(lists).value;
    FlattenCons(lists);
    assert Remaining(it) == Somes(Flatten(lists));
    NextNRemaining(it, |Flatten(lists)|);
    assert Remaining(it)[..|Flatten(lists)|] == Remaining(it);
  }
}
