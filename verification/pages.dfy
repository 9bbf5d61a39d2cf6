/** `Pages`: a column chunk is a run of pages, each a type byte (0 for a
    data page, 1 for a dictionary page) followed by the page's header and
    body; and the rule that cuts the values of successive data pages into
    partitions of a fixed length. */
module Pages {
  import opened Wrappers
  import opened Words
  import opened Bytes
  import opened Seqs
  import DataPages
  import DictionaryPages

  const DATA: int := 0
  const DICTIONARY: int := 1

  datatype PageHeader = DataHeader(data: DataPages.Header) | DictionaryHeader(dictionary: DictionaryPages.Header)

  /** `type`. */
  function PageType(h: PageHeader): (t: byte)
    ensures t == DATA <==> h.DataHeader?
    ensures t == DICTIONARY <==> h.DictionaryHeader?
  {
    match h
    case DataHeader(_) => 0
    case DictionaryHeader(_) => 1
  }

  function WriteHeader(h: PageHeader): seq<byte> {
    match h
    case DataHeader(d) => DataPages.WriteHeader(d)
    case DictionaryHeader(d) => DictionaryPages.WriteHeader(d)
  }

  function BodyLength(h: PageHeader): int32 {
    match h
    case DataHeader(d) => DataPages.BodyLength(d)
    case DictionaryHeader(d) => DictionaryPages.BodyLength(d)
  }

  /** `(int)bb.get()`: a byte read as a signed value. */
  function SignedByte(b: byte): (i: int)
    ensures -128 <= i < 128 && (i == 0 <==> b == 0) && (i == 1 <==> b == 1)
  {
    if b < 128 then b as int else b as int - 256
  }

  /** `writeTo`: the page type byte, then the page (its header, then its
      body). */
  function WritePage(h: PageHeader, body: seq<byte>): (r: seq<byte>)
    ensures |r| > 0 && r[0] == PageType(h)
  {
    [PageType(h)] + WriteHeader(h) + body
  }

  /** `readHeader`: the type byte, read as a signed byte, picks the header
      reader; any other type is an error. */
  function ReadHeader(bs: seq<byte>): (r: Outcome<Parsed<PageHeader>>)
    ensures |bs| == 0 ==> r == Failure(BufferUnderflow)
    ensures |bs| > 0 && SignedByte(bs[0]) != DATA && SignedByte(bs[0]) != DICTIONARY ==>
      r.Failure? && r.error.IllegalState?
    ensures r.Success? ==> |r.value.rest| < |bs| && r.value.value.DataHeader? == (bs[0] == 0)
  {
    if |bs| == 0 then Failure(BufferUnderflow)
    else
      var pageType := SignedByte(bs[0]);
      if pageType == DATA then
        var p :- DataPages.ReadHeader(bs[1..]);
        Success(Parsed(DataHeader(p.value), p.rest))
      else if pageType == DICTIONARY then
        var p :- DictionaryPages.ReadHeader(bs[1..]);
        Success(Parsed(DictionaryHeader(p.value), p.rest))
      else Failure(IllegalState("Unkown page type"))
  }

  lemma ReadWrittenDataHeader(d: DataPages.Header, tail: seq<byte>)
    ensures ReadHeader([0] + DataPages.WriteHeader(d) + tail) == Success(Parsed(DataHeader(d), tail))
  {
    assert ([0] + DataPages.WriteHeader(d) + tail)[1..] == DataPages.WriteHeader(d) + tail;
    DataPages.HeaderRoundTrip(d, tail);
  }

  lemma ReadWrittenDictionaryHeader(d: DictionaryPages.Header, tail: seq<byte>)
    ensures ReadHeader([1] + DictionaryPages.WriteHeader(d) + tail) == Success(Parsed(DictionaryHeader(d), tail))
  {
    assert ([1] + DictionaryPages.WriteHeader(d) + tail)[1..] == DictionaryPages.WriteHeader(d) + tail;
    DictionaryPages.HeaderRoundTrip(d, tail);
  }

  /** Reading the header of a written page gives back its header, and
      leaves the body and what follows. */
  lemma ReadWrittenHeader(h: PageHeader, body: seq<byte>, rest: seq<byte>)
    ensures ReadHeader(WritePage(h, body) + rest) == Success(Parsed(h, body + rest))
  {
    assert WritePage(h, body) + rest == [PageType(h)] + WriteHeader(h) + (body + rest);
    match h
    case DataHeader(d) =>
      ReadWrittenDataHeader(d, body + rest);
    case DictionaryHeader(d) =>
      ReadWrittenDictionaryHeader(d, body + rest);
  }

  /** A page whose header gives the length of its body. */
  predicate WellFormed(h: PageHeader, body: seq<byte>) {
    BodyLength(h) as int == |body|
  }

  /** `readHeaders`: `n` headers, each followed by skipping its body. */
  function ReadHeaders(bs: seq<byte>, n: nat): (r: Outcome<seq<PageHeader>>)
    ensures r.Success? ==> |r.value| == n
    decreases n
  {
    if n == 0 then Success([])
    else
      var p :- ReadHeader(bs);
      var next :- SliceAhead(p.rest, BodyLength(p.value));
      var hs :- ReadHeaders(next, n - 1);
      Success([p.value] + hs)
  }

  /** Pages written one after the other. */
  function WritePages(pages: seq<(PageHeader, seq<byte>)>): seq<byte> {
    if |pages| == 0 then [] else WritePage(pages[0].0, pages[0].1) + WritePages(pages[1..])
  }

  /** The headers of pages, in order. */
  function Headers(pages: seq<(PageHeader, seq<byte>)>): (hs: seq<PageHeader>)
    ensures |hs| == |pages| && forall k | 0 <= k < |pages| :: hs[k] == pages[k].0
  {
    if |pages| == 0 then [] else [pages[0].0] + Headers(pages[1..])
  }

  /** Reading one more header off a well-formed written page. */
  lemma ReadHeadersStep(h: PageHeader, body: seq<byte>, tail: seq<byte>, n: nat)
    requires WellFormed(h, body)
    ensures ReadHeaders(WritePage(h, body) + tail, n + 1) ==
      if ReadHeaders(tail, n).Success? then Success([h] + ReadHeaders(tail, n).value) else ReadHeaders(tail, n)
  {
    ReadWrittenHeader(h, body, tail);
    assert SliceAhead(body + tail, BodyLength(h)) == Success(tail);
  }

  /** Reading the headers of written pages gives their headers in order. */
  lemma {:induction false} ReadHeadersOfPages(pages: seq<(PageHeader, seq<byte>)>, rest: seq<byte>)
    requires forall k | 0 <= k < |pages| :: WellFormed(pages[k].0, pages[k].1)
    ensures ReadHeaders(WritePages(pages) + rest, |pages|) == Success(Headers(pages))
  {
    if |pages| > 0 {
      var tail := WritePages(pages[1..]) + rest;
      assert WritePages(pages) + rest == WritePage(pages[0].0, pages[0].1) + tail;
      ReadHeadersOfPages(pages[1..], rest);
      ReadHeadersStep(pages[0].0, pages[0].1, tail, |pages| - 1);
    }
  }

  /** `getDataPageReader` and `getDictionaryPageReader` check the type byte
      before reading the header. */
  function CheckPageType(bs: seq<byte>, expected: int): (r: Outcome<seq<byte>>)
    ensures r.Success? <==> |bs| > 0 && SignedByte(bs[0]) == expected
    ensures r.Success? ==> r.value == bs[1..]
  {
    if |bs| == 0 then Failure(BufferUnderflow)
    else if SignedByte(bs[0]) != expected then Failure(IllegalState("Page type is not the expected type"))
    else Success(bs[1..])
  }

  // ---------------------------------------------------------------------
  // Partitioning

  /** `take` and `drop` on a page's value list: at most `n` values from the
      front, and the values after them. */
  function Take<T>(xs: seq<T>, n: int): (r: seq<T>)
    ensures r == xs[..if n <= 0 then 0 else if n < |xs| then n else |xs|]
  {
    if n <= 0 then [] else if n < |xs| then xs[..n] else xs
  }

  function Drop<T>(xs: seq<T>, n: int): (r: seq<T>)
    ensures r == xs[if n <= 0 then 0 else if n < |xs| then n else |xs|..]
  {
    if n <= 0 then xs else if n < |xs| then xs[n..] else []
  }

  /** `take` and `drop` split a list, and at a count within it they split
      it at that count. */
  lemma TakeDrop<T>(xs: seq<T>, n: int)
    ensures Take(xs, n) + Drop(xs, n) == xs
    ensures 0 <= n <= |xs| ==> |Take(xs, n)| == n && |Drop(xs, n)| == |xs| - n
  {
  }

  /** `DataPageReadResult`: the full partitions, and the values left over
      with their count. */
  datatype Partitioned<T> = Partitioned(full: seq<seq<T>>, unfinished: seq<T>, unfinishedLength: int)

  /** The values of a page as the reader returns them, `null` when none. */
  function ValuesOf<T>(values: Option<seq<T>>): seq<T> {
    if values.Some? then values.value else []
  }

  /** `a` added up `k` times. */
  function Times(a: int, k: nat): int {
    if k == 0 then 0 else Times(a, k - 1) + a
  }

  /** `Times` is multiplication. */
  lemma {:induction false} TimesIsProduct(a: int, k: nat)
    ensures Times(a, k) == a * k
  {
    if k > 0 {
      TimesIsProduct(a, k - 1);
    }
  }

  /** The loop of `readAndPartitionDataPage`: while the running count
      `numValues` reaches `partitionLength`, take a partition of that many
      values from the front and count them off. When the count is the
      number of values, every partition cut is full and fewer values than
      a partition are left. */
  method CutPartitions<T>(vs: seq<T>, numValues: int, partitionLength: int)
    returns (cut: seq<seq<T>>, rest: seq<T>, n: int)
    requires partitionLength > 0
    ensures Flatten(cut) + rest == vs
    ensures n + Times(partitionLength, |cut|) == numValues
    ensures n < partitionLength
    ensures numValues < partitionLength ==> cut == []
    ensures numValues == |vs| ==> n == |rest| && forall k | 0 <= k < |cut| :: |cut[k]| == partitionLength
  {
    cut, rest, n := [], vs, numValues;
    while n >= partitionLength
      invariant Flatten(cut) + rest == vs
      invariant n + Times(partitionLength, |cut|) == numValues
      invariant numValues < partitionLength ==> cut == []
      invariant numValues == |vs| ==> n == |rest| && forall k | 0 <= k < |cut| :: |cut[k]| == partitionLength
      decreases n
    {
      var part, after := Take(rest, partitionLength), Drop(rest, partitionLength);
      TakeDrop(rest, partitionLength);
      FlattenSnoc(cut, part);
      cut, rest, n := cut + [part], after, n - partitionLength;
    }
  }

  /** The partition completed from the unfinished one goes before the
      partitions cut after it. */
  lemma PrependPartition<T>(p: seq<T>, cut: seq<seq<T>>, partitionLength: int)
    ensures Flatten([p] + cut) == p + Flatten(cut)
    ensures Times(partitionLength, |[p] + cut|) == partitionLength + Times(partitionLength, |cut|)
    ensures |p| == partitionLength && (forall k | 0 <= k < |cut| :: |cut[k]| == partitionLength) ==>
      forall k | 0 <= k < |[p] + cut| :: |([p] + cut)[k]| == partitionLength
  {
    FlattenCons([p] + cut);
    assert ([p] + cut)[1..] == cut;
  }

  /** `readAndPartitionDataPage`: completes the unfinished partition with
      the page's values (if they are enough), cuts full partitions of
      `partitionLength` from the rest, and leaves the remainder unfinished.
      The reported length is Java's running count: the values taken in less
      those put into full partitions. It is the length of what is left
      whenever the unfinished partition is shorter than a full one, as every
      caller keeps it. A partition length that is not positive makes the
      source loop forever, so it is excluded. */
  method ReadAndPartition<T>(values: Option<seq<T>>, unfinished: seq<T>, partitionLength: int)
    returns (r: Outcome<Partitioned<T>>)
    requires partitionLength > 0
    ensures r.Failure? <==> values.None? && 0 < partitionLength <= |unfinished|
    ensures r.Success? ==> Flatten(r.value.full) + r.value.unfinished == unfinished + ValuesOf(values)
    ensures r.Success? ==>
      r.value.unfinishedLength == |unfinished| + |ValuesOf(values)| - Times(partitionLength, |r.value.full|)
    ensures r.Success? && |unfinished| < partitionLength ==>
      && r.value.unfinishedLength == |r.value.unfinished|
      && (forall k | 0 <= k < |r.value.full| :: |r.value.full[k]| == partitionLength)
      && |r.value.unfinished| < partitionLength
    ensures r.Success? && |unfinished| + |ValuesOf(values)| < partitionLength ==>
      r.value.full == [] && r.value.unfinished == unfinished + ValuesOf(values)
  {
    var vs := ValuesOf(values);
    if |unfinished| == 0 {
      assert unfinished + vs == vs;
      var cut, rest, n := CutPartitions(vs, |vs|, partitionLength);
      return Success(Partitioned(cut, rest, n));
    }
    if |unfinished| + |vs| < partitionLength {
      return Success(Partitioned([], unfinished + vs, |unfinished| + |vs|));
    }
    if values.None? {
      return Failure(NullPointer);
    }
    var numToComplete := partitionLength - |unfinished|;
    var first := unfinished + Take(vs, numToComplete);
    TakeDrop(vs, numToComplete);
    var cut, rest, n := CutPartitions(Drop(vs, numToComplete), |vs| - numToComplete, partitionLength);
    PrependPartition(first, cut, partitionLength);
    return Success(Partitioned([first] + cut, rest, n));
  }
}
