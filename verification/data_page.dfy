/** `DataPage`: a page of one column's values. Its header is five UInts
    (the value count and the byte lengths of the repetition levels, the
    definition levels and the compressed and uncompressed data); its body
    is the repetition levels, then the definition levels, then the data.

    The writers and readers are modelled on the value streams their
    encoders and decoders carry: the repetition levels, the definition
    levels and the data values, in the order they are encoded. A value
    that may be `null` is an `Option`. */
module DataPages {
  import opened Wrappers
  import opened Words
  import opened Bytes
  import opened Seqs
  import opened ChunkedLists

  // ---------------------------------------------------------------------
  // Header

  datatype Header = Header(
    numValues: int32, repetitionLevelsLength: int32, definitionLevelsLength: int32,
    compressedDataLength: int32, uncompressedDataLength: int32)

  /** `writeTo`: the five fields as UInts, in declaration order. */
  function WriteHeader(h: Header): seq<byte> {
    WriteUInt(h.numValues) + WriteUInt(h.repetitionLevelsLength) + WriteUInt(h.definitionLevelsLength)
    + WriteUInt(h.compressedDataLength) + WriteUInt(h.uncompressedDataLength)
  }

  /** `read`: five UInts, in the same order. */
  function ReadHeader(bs: seq<byte>): (r: Outcome<Parsed<Header>>)
    ensures r.Success? ==> |r.value.rest| < |bs|
  {
    var n :- ReadUInt(bs);
    var rep :- ReadUInt(n.rest);
    var def :- ReadUInt(rep.rest);
    var compressed :- ReadUInt(def.rest);
    var uncompressed :- ReadUInt(compressed.rest);
    Success(Parsed(Header(n.value, rep.value, def.value, compressed.value, uncompressed.value), uncompressed.rest))
  }

  /** Reading a written header gives it back and leaves what follows. */
  lemma HeaderRoundTrip(h: Header, rest: seq<byte>)
    ensures ReadHeader(WriteHeader(h) + rest) == Success(Parsed(h, rest))
  {
    var a, b, c, d, e := WriteUInt(h.numValues), WriteUInt(h.repetitionLevelsLength),
      WriteUInt(h.definitionLevelsLength), WriteUInt(h.compressedDataLength), WriteUInt(h.uncompressedDataLength);
    assert WriteHeader(h) == a + b + c + d + e;
    AppendAssoc(a + b + c + d, e, rest);
    AppendAssoc(a + b + c, d, e + rest);
    AppendAssoc(a + b, c, d + (e + rest));
    AppendAssoc(a, b, c + (d + (e + rest)));
    UIntRoundTrip(h.numValues, b + (c + (d + (e + rest))));
    UIntRoundTrip(h.repetitionLevelsLength, c + (d + (e + rest)));
    UIntRoundTrip(h.definitionLevelsLength, d + (e + rest));
    UIntRoundTrip(h.compressedDataLength, e + rest);
    UIntRoundTrip(h.uncompressedDataLength, rest);
  }

  /** `headerLength`: the sum of the five fields' UInt sizes, which is the
      size of what `writeTo` writes. */
  function HeaderLength(h: Header): (n: nat)
    ensures n == |WriteHeader(h)|
    ensures 5 <= n <= 25
  {
    UIntRoundTrip(h.numValues, []);
    UIntRoundTrip(h.repetitionLevelsLength, []);
    UIntRoundTrip(h.definitionLevelsLength, []);
    UIntRoundTrip(h.compressedDataLength, []);
    UIntRoundTrip(h.uncompressedDataLength, []);
    NumVarintBytes(h.numValues, W32) + NumVarintBytes(h.repetitionLevelsLength, W32)
    + NumVarintBytes(h.definitionLevelsLength, W32) + NumVarintBytes(h.compressedDataLength, W32)
    + NumVarintBytes(h.uncompressedDataLength, W32)
  }

  /** `bodyLength`: the levels and the compressed data, as an `int` sum. */
  function BodyLength(h: Header): (n: int32)
    ensures var sum := h.repetitionLevelsLength + h.definitionLevelsLength + h.compressedDataLength;
      W32.Holds(sum) ==> n == sum
  {
    ToSigned(h.repetitionLevelsLength + h.definitionLevelsLength + h.compressedDataLength, W32)
  }

  /** `byteOffsetRepetitionLevels`, `byteOffsetDefinitionLevels` and
      `byteOffsetData`: where each section starts in the body. */
  function ByteOffsetRepetitionLevels(h: Header): int32 {
    0
  }

  function ByteOffsetDefinitionLevels(h: Header): int32 {
    h.repetitionLevelsLength
  }

  function ByteOffsetData(h: Header): (n: int32)
    ensures W32.Holds(h.repetitionLevelsLength + h.definitionLevelsLength) ==>
      n == h.repetitionLevelsLength + h.definitionLevelsLength
  {
    ToSigned(h.repetitionLevelsLength + h.definitionLevelsLength, W32)
  }

  /** A page as the writer lays it out: the header, then the three
      sections, with the header giving their lengths. */
  function PageBytes(h: Header, repetitionLevels: seq<byte>, definitionLevels: seq<byte>, data: seq<byte>): seq<byte> {
    WriteHeader(h) + repetitionLevels + definitionLevels + data
  }

  /** The header of a page describes its sections. */
  predicate Describes(h: Header, repetitionLevels: seq<byte>, definitionLevels: seq<byte>, data: seq<byte>) {
    && h.repetitionLevelsLength as int == |repetitionLevels|
    && h.definitionLevelsLength as int == |definitionLevels|
    && h.compressedDataLength as int == |data|
    && |repetitionLevels| + |definitionLevels| + |data| < TWO_31
  }

  /** In a body laid out as the header describes, the repetition levels
      start at offset 0, the definition levels at the repetition levels'
      length and the data after both; and `next`, the buffer after the
      body, is what followed it. */
  lemma BodySections(h: Header, repetitionLevels: seq<byte>, definitionLevels: seq<byte>, data: seq<byte>,
                     rest: seq<byte>)
    requires Describes(h, repetitionLevels, definitionLevels, data)
    ensures var body := repetitionLevels + definitionLevels + data + rest;
      && SliceAhead(body, ByteOffsetRepetitionLevels(h)) == Success(body)
      && SliceAhead(body, ByteOffsetDefinitionLevels(h)) == Success(definitionLevels + data + rest)
      && SliceAhead(body, ByteOffsetData(h)) == Success(data + rest)
      && SliceAhead(body, BodyLength(h)) == Success(rest)
  {
    var body := repetitionLevels + definitionLevels + data + rest;
    assert body[|repetitionLevels|..] == definitionLevels + data + rest;
    assert body[|repetitionLevels| + |definitionLevels|..] == data + rest;
    assert body[|repetitionLevels| + |definitionLevels| + |data|..] == rest;
  }

  /** Reading a page back: the header is the one written, and its body
      follows it. */
  lemma PageSections(h: Header, repetitionLevels: seq<byte>, definitionLevels: seq<byte>, data: seq<byte>,
                     rest: seq<byte>)
    ensures ReadHeader(PageBytes(h, repetitionLevels, definitionLevels, data) + rest)
      == Success(Parsed(h, repetitionLevels + definitionLevels + data + rest))
  {
    var w, r, d := WriteHeader(h), repetitionLevels, definitionLevels;
    var body := r + (d + (data + rest));
    AppendAssoc(w + r + d, data, rest);
    AppendAssoc(w + r, d, data + rest);
    AppendAssoc(w, r, d + (data + rest));
    AppendAssoc(r + d, data, rest);
    AppendAssoc(r, d, data + rest);
    HeaderRoundTrip(h, body);
  }

  // ---------------------------------------------------------------------
  // Writer and reader kinds

  datatype Kind = Required | NonRepeated | Repeated

  /** `Writer.create` and `Reader.create`: required values when the
      maximum definition level is 0, otherwise non-repeated values when
      the maximum repetition level is 0, otherwise repeated values. */
  function KindOf(maxRepetitionLevel: int, maxDefinitionLevel: int): (k: Kind)
    ensures k == Required <==> maxDefinitionLevel == 0
    ensures k == NonRepeated <==> maxDefinitionLevel != 0 && maxRepetitionLevel == 0
    ensures k == Repeated <==> maxDefinitionLevel != 0 && maxRepetitionLevel != 0
  {
    if maxDefinitionLevel == 0 then Required
    else if maxRepetitionLevel == 0 then NonRepeated
    else Repeated
  }

  // ---------------------------------------------------------------------
  // Writers

  /** What a writer's three encoders have been given, and `numValues`. */
  datatype Streams<V> = Streams(
    repetitionLevels: seq<int>, definitionLevels: seq<int>, data: seq<Option<V>>, numValues: nat)

  function NoStreams<V>(): Streams<V> {
    Streams([], [], [], 0)
  }

  /** The values that are not `null`, in order. */
  function Present<V>(vs: seq<Option<V>>): (r: seq<Option<V>>)
    ensures |r| <= |vs|
    ensures forall k | 0 <= k < |r| :: r[k].Some?
  {
    if |vs| == 0 then []
    else if vs[0].None? then Present(vs[1..])
    else [vs[0]] + Present(vs[1..])
  }

  /** The required-values writer: every value goes to the data encoder. */
  function WriteRequired<V>(s: Streams<V>, values: seq<Option<V>>): (r: Streams<V>)
    ensures r.repetitionLevels == s.repetitionLevels && r.definitionLevels == s.definitionLevels
    ensures r.numValues == s.numValues + |values|
  {
    s.(data := s.data + values, numValues := s.numValues + |values|)
  }

  /** The definition levels the non-repeated writer emits: 0 for `null`,
      1 otherwise. */
  function NullLevels<V>(values: seq<Option<V>>): (r: seq<int>)
    ensures |r| == |values|
    ensures forall k | 0 <= k < |values| :: (r[k] == 0 <==> values[k].None?) && 0 <= r[k] <= 1
  {
    seq(|values|, k requires 0 <= k < |values| => if values[k].None? then 0 else 1)
  }

  /** The non-repeated writer: a definition level for every value, and
      only the non-`null` values to the data encoder. */
  function WriteNonRepeated<V>(s: Streams<V>, values: seq<Option<V>>): (r: Streams<V>)
    ensures r.repetitionLevels == s.repetitionLevels
    ensures |r.definitionLevels| == |s.definitionLevels| + |values|
    ensures |r.data| <= |s.data| + |values|
    ensures r.numValues == s.numValues + |values|
  {
    s.(definitionLevels := s.definitionLevels + NullLevels(values), data := s.data + Present(values),
       numValues := s.numValues + |values|)
  }

  /** `LeveledValue`. */
  datatype Leveled<V> = Leveled(repetitionLevel: int, definitionLevel: int, value: V)

  function RepetitionLevels<V>(lvs: seq<Leveled<V>>): (r: seq<int>)
    ensures |r| == |lvs| && forall k | 0 <= k < |lvs| :: r[k] == lvs[k].repetitionLevel
  {
    seq(|lvs|, k requires 0 <= k < |lvs| => lvs[k].repetitionLevel)
  }

  function DefinitionLevels<V>(lvs: seq<Leveled<V>>): (r: seq<int>)
    ensures |r| == |lvs| && forall k | 0 <= k < |lvs| :: r[k] == lvs[k].definitionLevel
  {
    seq(|lvs|, k requires 0 <= k < |lvs| => lvs[k].definitionLevel)
  }

  function LeveledValues<V>(lvs: seq<Leveled<V>>): (r: seq<V>)
    ensures |r| == |lvs| && forall k | 0 <= k < |lvs| :: r[k] == lvs[k].value
  {
    seq(|lvs|, k requires 0 <= k < |lvs| => lvs[k].value)
  }

  /** The repeated writer: both levels of every value, and the non-`null`
      values to the data encoder. */
  function WriteRepeated<V>(s: Streams<V>, lvs: seq<Leveled<Option<V>>>): (r: Streams<V>)
    ensures |r.repetitionLevels| == |s.repetitionLevels| + |lvs|
    ensures |r.definitionLevels| == |s.definitionLevels| + |lvs|
    ensures |r.data| <= |s.data| + |lvs|
    ensures r.numValues == s.numValues + |lvs|
  {
    Streams(s.repetitionLevels + RepetitionLevels(lvs), s.definitionLevels + DefinitionLevels(lvs),
            s.data + Present(LeveledValues(lvs)), s.numValues + |lvs|)
  }

  // ---------------------------------------------------------------------
  // Readers

  /** The required-values reader: every decoded value, collected. */
  function ReadRequired<V>(data: seq<Option<V>>): (r: Option<ChunkedList<Option<V>>>)
    ensures Values(r) == data
  {
    CollectRoundTrip(data);
    Collect(data)
  }

  /** The non-repeated reader's loop: `nullValue` for definition level 0,
      the next decoded value otherwise; running out of data underflows. */
  function NonRepeatedValues<V>(definitionLevels: seq<int>, data: seq<Option<V>>, nullValue: Option<V>)
    : (r: Outcome<seq<Option<V>>>)
    ensures r.Success? ==> |r.value| == |definitionLevels|
    ensures r.Success? ==> forall k | 0 <= k < |definitionLevels| ::
      definitionLevels[k] == 0 ==> r.value[k] == nullValue
  {
    if |definitionLevels| == 0 then Success([])
    else if definitionLevels[0] == 0 then
      var vs :- NonRepeatedValues(definitionLevels[1..], data, nullValue);
      Success([nullValue] + vs)
    else if |data| == 0 then Failure(BufferUnderflow)
    else
      var vs :- NonRepeatedValues(definitionLevels[1..], data[1..], nullValue);
      Success([data[0]] + vs)
  }

  function ReadNonRepeated<V>(definitionLevels: seq<int>, data: seq<Option<V>>, nullValue: Option<V>)
    : (r: Outcome<Option<ChunkedList<Option<V>>>>)
    ensures r.Success? ==> |Values(r.value)| == |definitionLevels|
  {
    var vs :- NonRepeatedValues(definitionLevels, data, nullValue);
    CollectRoundTrip(vs);
    Success(Collect(vs))
  }

  /** What the non-repeated writer wrote, the reader reads back, with
      `nil` standing for `null`. */
  lemma {:induction false} NonRepeatedValuesRoundTrip<V>(values: seq<Option<V>>)
    ensures NonRepeatedValues(NullLevels(values), Present(values), None) == Success(values)
  {
    if |values| > 0 {
      NonRepeatedValuesRoundTrip(values[1..]);
      assert NullLevels(values)[1..] == NullLevels(values[1..]);
      assert [values[0]] + values[1..] == values;
      if values[0].Some? {
        assert Present(values) == [values[0]] + Present(values[1..]);
        assert Present(values)[1..] == Present(values[1..]);
      }
    }
  }

  lemma NonRepeatedRoundTrip<V>(values: seq<Option<V>>)
    ensures var s := WriteNonRepeated(NoStreams(), values);
      && ReadNonRepeated(s.definitionLevels, s.data, None).Success?
      && Values(ReadNonRepeated(s.definitionLevels, s.data, None).value) == values
  {
    var s := WriteNonRepeated(NoStreams(), values);
    assert s.definitionLevels == NullLevels(values) && s.data == Present(values);
    NonRepeatedValuesRoundTrip(values);
    CollectRoundTrip(values);
  }

  lemma RequiredRoundTrip<V>(values: seq<Option<V>>)
    ensures Values(ReadRequired(WriteRequired(NoStreams(), values).data)) == values
  {
    assert WriteRequired(NoStreams(), values).data == values;
  }

  /** The repeated reader's loop, one value per step: a repetition level
      of 0 after the first value closes the record being built (`rv`) and
      starts a new one; a definition level below the maximum stands for
      `nullValue`, any other takes the next decoded value. */
  function RepeatedLoop<V>(repetitionLevels: seq<int>, definitionLevels: seq<int>, data: seq<Option<V>>,
                           maxDefinitionLevel: int, nullValue: Option<V>,
                           vs: seq<seq<Leveled<Option<V>>>>, rv: seq<Leveled<Option<V>>>, seenFirstValue: bool)
    : (r: Outcome<(seq<seq<Leveled<Option<V>>>>, seq<Leveled<Option<V>>>)>)
    decreases |repetitionLevels|
  {
    if |repetitionLevels| == 0 then Success((vs, rv))
    else
      var repLvl := repetitionLevels[0];
      var closes := repLvl == 0 && seenFirstValue;
      var vs1 := if closes then vs + [rv] else vs;
      var rv1 := if closes then [] else rv;
      if |definitionLevels| == 0 then Failure(BufferUnderflow)
      else
        var defLvl := definitionLevels[0];
        if defLvl < maxDefinitionLevel then
          RepeatedLoop(repetitionLevels[1..], definitionLevels[1..], data, maxDefinitionLevel, nullValue,
                       vs1, rv1 + [Leveled(repLvl, defLvl, nullValue)], true)
        else if |data| == 0 then Failure(BufferUnderflow)
        else
          RepeatedLoop(repetitionLevels[1..], definitionLevels[1..], data[1..], maxDefinitionLevel, nullValue,
                       vs1, rv1 + [Leveled(repLvl, defLvl, data[0])], true)
  }

  /** Each record as `persistent` returns it (`null` when empty), and the
      list of them. */
  function CollectRecords<V>(groups: seq<seq<Leveled<Option<V>>>>)
    : (r: Option<ChunkedList<Option<ChunkedList<Leveled<Option<V>>>>>>)
  {
    Collect(seq(|groups|, k requires 0 <= k < |groups| => Collect(groups[k])))
  }

  /** The repeated reader as written: after the loop, the record being
      built is added unconditionally (the source's `rv != null` always
      holds), so a page without values reads as one `null` record. */
  function ReadRepeatedAsWritten<V>(repetitionLevels: seq<int>, definitionLevels: seq<int>,
                                    data: seq<Option<V>>, maxDefinitionLevel: int, nullValue: Option<V>)
    : (r: Outcome<Option<ChunkedList<Option<ChunkedList<Leveled<Option<V>>>>>>>)
    ensures r.Success? ==> r.value.Some?
  {
    var (vs, rv) :- RepeatedLoop(repetitionLevels, definitionLevels, data, maxDefinitionLevel, nullValue,
                                 [], [], false);
    CollectRoundTrip(seq(|vs + [rv]|, k requires 0 <= k < |vs + [rv]| => Collect((vs + [rv])[k])));
    Success(CollectRecords(vs + [rv]))
  }

  /** The repeated reader, adding the last record only when there was one. */
  function ReadRepeated<V>(repetitionLevels: seq<int>, definitionLevels: seq<int>,
                           data: seq<Option<V>>, maxDefinitionLevel: int, nullValue: Option<V>)
    : (r: Outcome<Option<ChunkedList<Option<ChunkedList<Leveled<Option<V>>>>>>>)
    ensures |repetitionLevels| == 0 ==> r == Success(None)
  {
    var (vs, rv) :- RepeatedLoop(repetitionLevels, definitionLevels, data, maxDefinitionLevel, nullValue,
                                 [], [], false);
    var groups := if |repetitionLevels| > 0 then vs + [rv] else vs;
    CollectRoundTrip(seq(|groups|, k requires 0 <= k < |groups| => Collect(groups[k])));
    Success(CollectRecords(groups))
  }

  /** On a page with values the reader as written is the corrected one,
      so it reads back what the repeated writer wrote
      (`RepeatedRoundTrip`). */
  lemma RepeatedAsWrittenAgrees<V>(repetitionLevels: seq<int>, definitionLevels: seq<int>,
                                   data: seq<Option<V>>, maxDefinitionLevel: int, nullValue: Option<V>)
    requires |repetitionLevels| > 0
    ensures ReadRepeatedAsWritten(repetitionLevels, definitionLevels, data, maxDefinitionLevel, nullValue)
         == ReadRepeated(repetitionLevels, definitionLevels, data, maxDefinitionLevel, nullValue)
  {
  }

  /** A page with no values reads, as written, as a list holding one
      `null` record. */
  lemma EmptyRepeatedPageAsWritten<V>(maxDefinitionLevel: int, nullValue: Option<V>)
    ensures var r := ReadRepeatedAsWritten([], [], [], maxDefinitionLevel, nullValue);
      r.Success? && Values(r.value) == [None]
  {
    var groups: seq<seq<Leveled<Option<V>>>> := [[]];
    var records := seq(|groups|, k requires 0 <= k < |groups| => Collect(groups[k]));
    CollectRoundTrip(groups[0]);
    assert records == [None];
    CollectRoundTrip(records);
  }

  // ---------------------------------------------------------------------
  // The repeated round trip

  /** How the loop groups values once the levels and data are decoded. */
  function Group<V>(es: seq<Leveled<Option<V>>>, vs: seq<seq<Leveled<Option<V>>>>,
                    rv: seq<Leveled<Option<V>>>, seen: bool)
    : (seq<seq<Leveled<Option<V>>>>, seq<Leveled<Option<V>>>)
    decreases |es|
  {
    if |es| == 0 then (vs, rv)
    else
      var closes := es[0].repetitionLevel == 0 && seen;
      Group(es[1..], if closes then vs + [rv] else vs, (if closes then [] else rv) + [es[0]], true)
  }

  /** A value's `null`-ness agrees with its definition level. */
  predicate Consistent<V>(lv: Leveled<Option<V>>, maxDefinitionLevel: int) {
    lv.value.None? <==> lv.definitionLevel < maxDefinitionLevel
  }

  /** On the streams the repeated writer produces, the loop groups the
      written values. */
  lemma {:induction false} LoopGroups<V>(es: seq<Leveled<Option<V>>>, maxDefinitionLevel: int,
                                         vs: seq<seq<Leveled<Option<V>>>>, rv: seq<Leveled<Option<V>>>, seen: bool)
    requires forall k | 0 <= k < |es| :: Consistent(es[k], maxDefinitionLevel)
    ensures RepeatedLoop(RepetitionLevels(es), DefinitionLevels(es), Present(LeveledValues(es)),
                         maxDefinitionLevel, None, vs, rv, seen) == Success(Group(es, vs, rv, seen))
    decreases |es|
  {
    if |es| > 0 {
      assert RepetitionLevels(es)[1..] == RepetitionLevels(es[1..]);
      assert DefinitionLevels(es)[1..] == DefinitionLevels(es[1..]);
      assert LeveledValues(es)[1..] == LeveledValues(es[1..]);
      assert es[0] == Leveled(es[0].repetitionLevel, es[0].definitionLevel, es[0].value);
      var closes := es[0].repetitionLevel == 0 && seen;
      LoopGroups(es[1..], maxDefinitionLevel, if closes then vs + [rv] else vs,
                 (if closes then [] else rv) + [es[0]], true);
    }
  }

  lemma {:induction false} GroupAppend<V>(a: seq<Leveled<Option<V>>>, b: seq<Leveled<Option<V>>>,
                                          vs: seq<seq<Leveled<Option<V>>>>, rv: seq<Leveled<Option<V>>>, seen: bool)
    ensures Group(a + b, vs, rv, seen) == Group(b, Group(a, vs, rv, seen).0, Group(a, vs, rv, seen).1, seen || |a| > 0)
    decreases |a|
  {
    if |a| > 0 {
      assert (a + b)[1..] == a[1..] + b && (a + b)[0] == a[0];
      var closes := a[0].repetitionLevel == 0 && seen;
      assert Group(a + b, vs, rv, seen) == Group(a[1..] + b, if closes then vs + [rv] else vs,
        (if closes then [] else rv) + [a[0]], true);
      GroupAppend(a[1..], b, if closes then vs + [rv] else vs, (if closes then [] else rv) + [a[0]], true);
    } else {
      assert a + b == b;
    }
  }

  /** Values after the first of a record do not close it. */
  lemma {:induction false} GroupInside<V>(es: seq<Leveled<Option<V>>>, vs: seq<seq<Leveled<Option<V>>>>,
                                          rv: seq<Leveled<Option<V>>>)
    requires forall k | 0 <= k < |es| :: es[k].repetitionLevel != 0
    ensures Group(es, vs, rv, true) == (vs, rv + es)
    decreases |es|
  {
    if |es| > 0 {
      assert forall k | 0 <= k < |es[1..]| :: es[1..][k] == es[k + 1];
      GroupInside(es[1..], vs, rv + [es[0]]);
      assert rv + [es[0]] + es[1..] == rv + es;
    } else {
      assert rv + es == rv;
    }
  }

  /** A record: values whose first, and only the first, has repetition
      level 0, each consistent with the maximum definition level. */
  predicate IsRecord<V>(r: seq<Leveled<Option<V>>>, maxDefinitionLevel: int) {
    && |r| > 0 && r[0].repetitionLevel == 0
    && (forall k | 1 <= k < |r| :: r[k].repetitionLevel != 0)
    && (forall k | 0 <= k < |r| :: Consistent(r[k], maxDefinitionLevel))
  }

  lemma GroupRecord<V>(r: seq<Leveled<Option<V>>>, maxDefinitionLevel: int,
                       vs: seq<seq<Leveled<Option<V>>>>, rv: seq<Leveled<Option<V>>>, seen: bool)
    requires IsRecord(r, maxDefinitionLevel) && (!seen ==> rv == [])
    ensures Group(r, vs, rv, seen) == (if seen then vs + [rv] else vs, r)
  {
    var vs1 := if seen then vs + [rv] else vs;
    if seen {
      assert Group(r, vs, rv, seen) == Group(r[1..], vs1, [] + [r[0]], true);
    } else {
      assert Group(r, vs, rv, seen) == Group(r[1..], vs1, rv + [r[0]], true);
    }
    assert [] + [r[0]] == [r[0]] && (!seen ==> rv + [r[0]] == [r[0]]);
    assert forall k | 0 <= k < |r[1..]| :: r[1..][k] == r[k + 1];
    GroupInside(r[1..], vs1, [r[0]]);
    assert [r[0]] + r[1..] == r;
  }

  lemma {:induction false} GroupRecords<V>(records: seq<seq<Leveled<Option<V>>>>, maxDefinitionLevel: int)
    requires |records| > 0
    requires forall k | 0 <= k < |records| :: IsRecord(records[k], maxDefinitionLevel)
    ensures Group(Flatten(records), [], [], false) == (records[..|records| - 1], records[|records| - 1])
    ensures |Flatten(records)| > 0
  {
    var n := |records|;
    if n == 1 {
      assert records[..0] == [];
      assert Flatten(records) == records[0];
      GroupRecord(records[0], maxDefinitionLevel, [], [], false);
    } else {
      var front := records[..n - 1];
      GroupRecords(front, maxDefinitionLevel);
      GroupAppend(Flatten(front), records[n - 1], [], [], false);
      GroupRecord(records[n - 1], maxDefinitionLevel, front[..n - 2], front[n - 2], true);
      assert front[..n - 2] + [front[n - 2]] == records[..n - 1];
    }
  }

  lemma FlattenConsistent<V>(records: seq<seq<Leveled<Option<V>>>>, maxDefinitionLevel: int)
    requires forall k | 0 <= k < |records| :: IsRecord(records[k], maxDefinitionLevel)
    ensures forall k | 0 <= k < |Flatten(records)| :: Consistent(Flatten(records)[k], maxDefinitionLevel)
  {
    if |records| > 0 {
      FlattenConsistent(records[..|records| - 1], maxDefinitionLevel);
    }
  }

  /** The reader's result once the loop has grouped the values. */
  lemma ReadRepeatedOfLoop<V>(repetitionLevels: seq<int>, definitionLevels: seq<int>,
                              data: seq<Option<V>>, maxDefinitionLevel: int,
                              vs: seq<seq<Leveled<Option<V>>>>, rv: seq<Leveled<Option<V>>>)
    requires RepeatedLoop(repetitionLevels, definitionLevels, data, maxDefinitionLevel, None, [], [], false)
      == Success((vs, rv))
    ensures ReadRepeated(repetitionLevels, definitionLevels, data, maxDefinitionLevel, None)
      == Success(CollectRecords(if |repetitionLevels| > 0 then vs + [rv] else vs))
  {
  }

  /** Walking the collected records gives each record back. */
  lemma CollectRecordsValues<V>(groups: seq<seq<Leveled<Option<V>>>>)
    ensures |Values(CollectRecords(groups))| == |groups|
    ensures forall k | 0 <= k < |groups| :: Values(Values(CollectRecords(groups))[k]) == groups[k]
  {
    var lists := seq(|groups|, k requires 0 <= k < |groups| => Collect(groups[k]));
    CollectRoundTrip(lists);
    forall k | 0 <= k < |groups|
      ensures Values(lists[k]) == groups[k]
    {
      CollectRoundTrip(groups[k]);
    }
  }

  /** The streams the repeated writer produces for some records. */
  lemma WrittenStreams<V>(records: seq<seq<Leveled<Option<V>>>>)
    ensures var s := WriteRepeated(NoStreams(), Flatten(records));
      && s.repetitionLevels == RepetitionLevels(Flatten(records))
      && s.definitionLevels == DefinitionLevels(Flatten(records))
      && s.data == Present(LeveledValues(Flatten(records)))
  {
  }

  /** Records written by the repeated writer read back as the same
      records, one non-`null` list per record, with `nil` standing for
      `null` values. */
  lemma RepeatedRoundTrip<V>(records: seq<seq<Leveled<Option<V>>>>, maxDefinitionLevel: int)
    requires forall k | 0 <= k < |records| :: IsRecord(records[k], maxDefinitionLevel)
    ensures var s := WriteRepeated(NoStreams(), Flatten(records));
      var r := ReadRepeated(s.repetitionLevels, s.definitionLevels, s.data, maxDefinitionLevel, None);
      && r.Success?
      && |Values(r.value)| == |records|
      && forall k | 0 <= k < |records| :: Values(Values(r.value)[k]) == records[k]
  {
    var es := Flatten(records);
    WrittenStreams(records);
    FlattenConsistent(records, maxDefinitionLevel);
    LoopGroups(es, maxDefinitionLevel, [], [], false);
    var g := Group(es, [], [], false);
    ReadRepeatedOfLoop(RepetitionLevels(es), DefinitionLevels(es), Present(LeveledValues(es)),
                       maxDefinitionLevel, g.0, g.1);
    GroupedRecords(records, maxDefinitionLevel);
    CollectRecordsValues(records);
  }

  /** Grouping the written values, with the last open group closed, gives
      the records back. */
  lemma GroupedRecords<V>(records: seq<seq<Leveled<Option<V>>>>, maxDefinitionLevel: int)
    requires forall k | 0 <= k < |records| :: IsRecord(records[k], maxDefinitionLevel)
    ensures var g := Group(Flatten(records), [], [], false);
      (if |RepetitionLevels(Flatten(records))| > 0 then g.0 + [g.1] else g.0) == records
  {
    var n := |records|;
    if n > 0 {
      GroupRecords(records, maxDefinitionLevel);
      assert records[..n - 1] + [records[n - 1]] == records;
    } else {
      assert Flatten(records) == [];
    }
  }
}
