/** dendrite's file metadata (`Metadata`): a column chunk is four UInts;
    a record group is its length, its record count and a count-prefixed
    list of column chunks; a file is a count-prefixed list of record
    groups, the schema, a count-prefixed list of custom types, and the
    user metadata as a length-prefixed byte buffer. The schema and the
    custom types have their own serialisations, which are parameters
    here. */
module Metadata {
  import opened Wrappers
  import opened Words
  import opened Bytes
  import Seqs

  // ---------------------------------------------------------------------
  // Count-prefixed lists

  /** The elements written one after the other. */
  function WriteAll<T>(write: T -> seq<byte>, xs: seq<T>): (r: seq<byte>)
    ensures |xs| == 0 ==> r == []
  {
    if |xs| == 0 then [] else write(xs[0]) + WriteAll(write, xs[1..])
  }

  /** `n` elements read one after the other. */
  function ReadAll<T>(read: seq<byte> -> Outcome<Parsed<T>>, bs: seq<byte>, n: nat): (r: Outcome<Parsed<seq<T>>>)
    ensures r.Success? ==> |r.value.value| == n
    decreases n
  {
    if n == 0 then Success(Parsed([], bs))
    else
      var x :- read(bs);
      var more :- ReadAll(read, x.rest, n - 1);
      Success(Parsed([x.value] + more.value, more.rest))
  }

  /** `writeColumnChunksTo`, `writeRecordGroupsTo`, `writeCustomTypesTo`:
      the array length as a UInt, then the elements. */
  function WriteList<T>(write: T -> seq<byte>, xs: seq<T>): (r: seq<byte>)
    requires |xs| < TWO_31
  {
    WriteUInt(|xs| as int32) + WriteAll(write, xs)
  }

  /** `readColumnChunks`, `readRecordGroups`, `readCustomTypes`: a UInt
      count, then that many elements; a negative count cannot size an
      array. */
  function ReadList<T>(read: seq<byte> -> Outcome<Parsed<T>>, bs: seq<byte>): (r: Outcome<Parsed<seq<T>>>)
    ensures ReadUInt(bs).Success? && ReadUInt(bs).value.value < 0 ==> r == Failure(NegativeArraySize)
    ensures r.Success? ==> ReadUInt(bs).Success? && |r.value.value| == ReadUInt(bs).value.value as int
  {
    var n :- ReadUInt(bs);
    if n.value < 0 then Failure(NegativeArraySize) else ReadAll(read, n.rest, n.value as nat)
  }

  /** `read` gives back each of `xs` from what `write` wrote, whatever
      follows. */
  ghost predicate Inverts<T(!new)>(read: seq<byte> -> Outcome<Parsed<T>>, write: T -> seq<byte>, xs: seq<T>) {
    forall k, rest | 0 <= k < |xs| :: read(write(xs[k]) + rest) == Success(Parsed(xs[k], rest))
  }

  lemma {:induction false} ReadAllOfWriteAll<T(!new)>(read: seq<byte> -> Outcome<Parsed<T>>, write: T -> seq<byte>,
                                                      xs: seq<T>, rest: seq<byte>)
    requires Inverts(read, write, xs)
    ensures ReadAll(read, WriteAll(write, xs) + rest, |xs|) == Success(Parsed(xs, rest))
  {
    if |xs| > 0 {
      var tail := WriteAll(write, xs[1..]) + rest;
      assert WriteAll(write, xs) + rest == write(xs[0]) + tail;
      assert read(write(xs[0]) + tail) == Success(Parsed(xs[0], tail));
      assert Inverts(read, write, xs[1..]) by {
        forall k, r | 0 <= k < |xs| - 1
          ensures read(write(xs[1..][k]) + r) == Success(Parsed(xs[1..][k], r))
        {
          assert xs[1..][k] == xs[k + 1];
        }
      }
      ReadAllOfWriteAll(read, write, xs[1..], rest);
      assert ReadAll(read, write(xs[0]) + tail, |xs|) == Success(Parsed([xs[0]] + xs[1..], rest));
      assert [xs[0]] + xs[1..] == xs;
    } else {
      assert WriteAll(write, xs) + rest == rest && xs == [];
    }
  }

  /** Reading a written list gives back its elements, in order. */
  lemma ListRoundTrip<T(!new)>(read: seq<byte> -> Outcome<Parsed<T>>, write: T -> seq<byte>,
                               xs: seq<T>, rest: seq<byte>)
    requires |xs| < TWO_31 && Inverts(read, write, xs)
    ensures ReadList(read, WriteList(write, xs) + rest) == Success(Parsed(xs, rest))
  {
    var tail := WriteAll(write, xs) + rest;
    assert WriteList(write, xs) + rest == WriteUInt(|xs| as int32) + tail;
    UIntRoundTrip(|xs| as int32, tail);
    ReadAllOfWriteAll(read, write, xs, rest);
  }

  // ---------------------------------------------------------------------
  // Column chunks

  datatype ColumnChunk = ColumnChunk(length: int32, numDataPages: int32, dataPageOffset: int32,
                                     dictionaryPageOffset: int32)

  /** `ColumnChunk.writeTo`: the four fields as UInts. */
  function WriteColumnChunk(c: ColumnChunk): (r: seq<byte>)
    ensures 4 <= |r| <= 20
  {
    UIntRoundTrip(c.length, []);
    UIntRoundTrip(c.numDataPages, []);
    UIntRoundTrip(c.dataPageOffset, []);
    UIntRoundTrip(c.dictionaryPageOffset, []);
    WriteUInt(c.length) + WriteUInt(c.numDataPages) + WriteUInt(c.dataPageOffset) + WriteUInt(c.dictionaryPageOffset)
  }

  /** `ColumnChunk.read`: four UInts, in the same order. */
  function ReadColumnChunk(bs: seq<byte>): (r: Outcome<Parsed<ColumnChunk>>)
    ensures r.Success? ==> |r.value.rest| < |bs|
  {
    var length :- ReadUInt(bs);
    var numDataPages :- ReadUInt(length.rest);
    var dataPageOffset :- ReadUInt(numDataPages.rest);
    var dictionaryPageOffset :- ReadUInt(dataPageOffset.rest);
    Success(Parsed(ColumnChunk(length.value, numDataPages.value, dataPageOffset.value, dictionaryPageOffset.value),
                   dictionaryPageOffset.rest))
  }

  lemma ColumnChunkRoundTrip(c: ColumnChunk, rest: seq<byte>)
    ensures ReadColumnChunk(WriteColumnChunk(c) + rest) == Success(Parsed(c, rest))
  {
    var a, b, d, e := WriteUInt(c.length), WriteUInt(c.numDataPages), WriteUInt(c.dataPageOffset),
      WriteUInt(c.dictionaryPageOffset);
    assert WriteColumnChunk(c) == a + b + d + e;
    Seqs.AppendAssoc(a + b + d, e, rest);
    Seqs.AppendAssoc(a + b, d, e + rest);
    Seqs.AppendAssoc(a, b, d + (e + rest));
    UIntRoundTrip(c.length, b + (d + (e + rest)));
    UIntRoundTrip(c.numDataPages, d + (e + rest));
    UIntRoundTrip(c.dataPageOffset, e + rest);
    UIntRoundTrip(c.dictionaryPageOffset, rest);
  }

  lemma ColumnChunksInvert(cs: seq<ColumnChunk>)
    ensures Inverts(ReadColumnChunk, WriteColumnChunk, cs)
  {
    forall k, rest | 0 <= k < |cs|
      ensures ReadColumnChunk(WriteColumnChunk(cs[k]) + rest) == Success(Parsed(cs[k], rest))
    {
      ColumnChunkRoundTrip(cs[k], rest);
    }
  }

  /** `ColumnChunk.equals`: `false` for `null`, otherwise field by field. */
  function ColumnChunkEquals(c: ColumnChunk, o: Option<ColumnChunk>): (r: bool)
    ensures r <==> o == Some(c)
  {
    && o.Some?
    && c.length == o.value.length && c.numDataPages == o.value.numDataPages
    && c.dataPageOffset == o.value.dataPageOffset && c.dictionaryPageOffset == o.value.dictionaryPageOffset
  }

  // ---------------------------------------------------------------------
  // Record groups

  datatype RecordGroup = RecordGroup(length: int32, numRecords: int32, columnChunks: seq<ColumnChunk>)

  /** An array length is an `int`. */
  predicate WritableGroup(g: RecordGroup) {
    |g.columnChunks| < TWO_31
  }

  /** `RecordGroup.writeTo`: the length and the record count as UInts,
      then the column chunks as a list. */
  function WriteRecordGroup(g: RecordGroup): (r: seq<byte>)
    requires WritableGroup(g)
  {
    WriteUInt(g.length) + WriteUInt(g.numRecords) + WriteList(WriteColumnChunk, g.columnChunks)
  }

  /** `RecordGroup.read`, in the same order. */
  function ReadRecordGroup(bs: seq<byte>): (r: Outcome<Parsed<RecordGroup>>)
    ensures r.Success? ==> WritableGroup(r.value.value)
  {
    var length :- ReadUInt(bs);
    var numRecords :- ReadUInt(length.rest);
    var chunks :- ReadList(ReadColumnChunk, numRecords.rest);
    Success(Parsed(RecordGroup(length.value, numRecords.value, chunks.value), chunks.rest))
  }

  lemma RecordGroupRoundTrip(g: RecordGroup, rest: seq<byte>)
    requires WritableGroup(g)
    ensures ReadRecordGroup(WriteRecordGroup(g) + rest) == Success(Parsed(g, rest))
  {
    var a, b, l := WriteUInt(g.length), WriteUInt(g.numRecords), WriteList(WriteColumnChunk, g.columnChunks);
    assert WriteRecordGroup(g) == a + b + l;
    Seqs.AppendAssoc(a + b, l, rest);
    Seqs.AppendAssoc(a, b, l + rest);
    UIntRoundTrip(g.length, b + (l + rest));
    UIntRoundTrip(g.numRecords, l + rest);
    ColumnChunksInvert(g.columnChunks);
    ListRoundTrip(ReadColumnChunk, WriteColumnChunk, g.columnChunks, rest);
  }

  /** `Arrays.equals`: the same length and equal elements pairwise. */
  predicate ArraysEqual<T>(a: seq<T>, b: seq<T>, equals: (T, Option<T>) -> bool) {
    |a| == |b| && forall k | 0 <= k < |a| :: equals(a[k], Some(b[k]))
  }

  /** `RecordGroup.equals`: `false` for `null`, otherwise the length, the
      record count and the column chunks. */
  function RecordGroupEquals(g: RecordGroup, o: Option<RecordGroup>): (r: bool)
  {
    && o.Some?
    && g.length == o.value.length && g.numRecords == o.value.numRecords
    && ArraysEqual(g.columnChunks, o.value.columnChunks, ColumnChunkEquals)
  }

  /** `RecordGroup.equals` is equality of the values. */
  lemma RecordGroupEqualsIff(g: RecordGroup, o: Option<RecordGroup>)
    ensures RecordGroupEquals(g, o) <==> o == Some(g)
  {
    if o.Some? && ArraysEqual(g.columnChunks, o.value.columnChunks, ColumnChunkEquals) {
      assert g.columnChunks == o.value.columnChunks;
    }
  }

  lemma RecordGroupsInvert(gs: seq<RecordGroup>)
    requires forall k | 0 <= k < |gs| :: WritableGroup(gs[k])
    ensures Inverts(ReadRecordGroup, WriteGroupOrNothing, gs)
  {
    forall k, rest | 0 <= k < |gs|
      ensures ReadRecordGroup(WriteGroupOrNothing(gs[k]) + rest) == Success(Parsed(gs[k], rest))
    {
      RecordGroupRoundTrip(gs[k], rest);
    }
  }

  /** A written list of writable record groups reads back. */
  lemma RecordGroupListRoundTrip(gs: seq<RecordGroup>, rest: seq<byte>)
    requires |gs| < TWO_31 && forall k | 0 <= k < |gs| :: WritableGroup(gs[k])
    ensures ReadList(ReadRecordGroup, WriteList(WriteGroupOrNothing, gs) + rest) == Success(Parsed(gs, rest))
  {
    RecordGroupsInvert(gs);
    ListRoundTrip(ReadRecordGroup, WriteGroupOrNothing, gs, rest);
  }

  /** `WriteRecordGroup` as a total function for the list writer; the
      file writer only meets writable groups. */
  function WriteGroupOrNothing(g: RecordGroup): seq<byte> {
    if WritableGroup(g) then WriteRecordGroup(g) else []
  }

  // ---------------------------------------------------------------------
  // Files

  /** A file's metadata over a schema type `S` and a custom type `C`;
      `metadata` is `None` for a `null` buffer. */
  datatype File<S, C> = File(recordGroups: seq<RecordGroup>, schema: S, customTypes: seq<C>,
                             metadata: Option<seq<byte>>)

  /** Every array length is an `int`. */
  predicate WritableFile<S, C>(f: File<S, C>) {
    && |f.recordGroups| < TWO_31 && |f.customTypes| < TWO_31
    && (forall k | 0 <= k < |f.recordGroups| :: WritableGroup(f.recordGroups[k]))
    && (f.metadata.Some? ==> |f.metadata.value| < TWO_31)
  }

  /** `File.writeTo`: the record groups, the schema, the custom types,
      then the metadata buffer. */
  function WriteFile<S, C>(f: File<S, C>, writeSchema: S -> seq<byte>, writeCustomType: C -> seq<byte>)
    : (r: seq<byte>)
    requires WritableFile(f)
  {
    WriteList(WriteGroupOrNothing, f.recordGroups) + writeSchema(f.schema)
    + WriteList(writeCustomType, f.customTypes) + WriteByteArray(f.metadata)
  }

  /** `readByteBuffer`: like `readByteArray`, but a length past the end
      makes `limit` throw an illegal argument. */
  function ReadByteBuffer(bs: seq<byte>): (r: Outcome<Parsed<Option<seq<byte>>>>)
    ensures ReadByteArray(bs).Success? ==> r == ReadByteArray(bs)
    ensures ReadByteArray(bs).Failure? ==> r.Failure?
  {
    var len :- ReadSInt(bs);
    if len.value < 0 then Success(Parsed(None, len.rest))
    else if |len.rest| < len.value then Failure(IllegalArgument("newLimit"))
    else Success(Parsed(Some(len.rest[..len.value]), len.rest[len.value..]))
  }

  /** `File.read`, in the same order. */
  function ReadFile<S, C>(bs: seq<byte>, readSchema: seq<byte> -> Outcome<Parsed<S>>,
                          readCustomType: seq<byte> -> Outcome<Parsed<C>>): (r: Outcome<Parsed<File<S, C>>>)
  {
    var groups :- ReadList(ReadRecordGroup, bs);
    var schema :- readSchema(groups.rest);
    var customTypes :- ReadList(readCustomType, schema.rest);
    var metadata :- ReadByteBuffer(customTypes.rest);
    Success(Parsed(File(groups.value, schema.value, customTypes.value, metadata.value), metadata.rest))
  }

  /** Reading a written file gives it back, given readers that invert the
      schema's and the custom types' writers. */
  lemma FileRoundTrip<S(!new), C(!new)>(f: File<S, C>, rest: seq<byte>,
                                         writeSchema: S -> seq<byte>, readSchema: seq<byte> -> Outcome<Parsed<S>>,
                                         writeCustomType: C -> seq<byte>,
                                         readCustomType: seq<byte> -> Outcome<Parsed<C>>)
    requires WritableFile(f)
    requires forall tail :: readSchema(writeSchema(f.schema) + tail) == Success(Parsed(f.schema, tail))
    requires Inverts(readCustomType, writeCustomType, f.customTypes)
    ensures ReadFile(WriteFile(f, writeSchema, writeCustomType) + rest, readSchema, readCustomType)
         == Success(Parsed(f, rest))
  {
    var g, s, c, m := WriteList(WriteGroupOrNothing, f.recordGroups), writeSchema(f.schema),
      WriteList(writeCustomType, f.customTypes), WriteByteArray(f.metadata);
    var t3 := m + rest;
    var t2 := c + t3;
    var t1 := s + t2;
    assert WriteFile(f, writeSchema, writeCustomType) == g + s + c + m;
    Seqs.AppendAssoc(g + s + c, m, rest);
    Seqs.AppendAssoc(g + s, c, t3);
    Seqs.AppendAssoc(g, s, t2);
    RecordGroupListRoundTrip(f.recordGroups, t1);
    ListRoundTrip(readCustomType, writeCustomType, f.customTypes, t3);
    ByteArrayRoundTrip(f.metadata, rest);
    ReadFileStages(g + t1, t1, t2, t3, rest, readSchema, readCustomType, f);
  }

  /** `File.read` reads its four parts in turn. */
  lemma ReadFileStages<S, C>(bs: seq<byte>, t1: seq<byte>, t2: seq<byte>, t3: seq<byte>, rest: seq<byte>,
                             readSchema: seq<byte> -> Outcome<Parsed<S>>,
                             readCustomType: seq<byte> -> Outcome<Parsed<C>>, f: File<S, C>)
    requires ReadList(ReadRecordGroup, bs) == Success(Parsed(f.recordGroups, t1))
    requires readSchema(t1) == Success(Parsed(f.schema, t2))
    requires ReadList(readCustomType, t2) == Success(Parsed(f.customTypes, t3))
    requires ReadByteBuffer(t3) == Success(Parsed(f.metadata, rest))
    ensures ReadFile(bs, readSchema, readCustomType) == Success(Parsed(f, rest))
  {
  }

  /** `File.equals`: `false` for `null`; otherwise the record groups, the
      schema, the custom types and the metadata in turn, where a `null`
      metadata buffer throws once the other fields are equal. */
  function FileEquals<S(==), C(==)>(f: File<S, C>, o: Option<File<S, C>>): (r: Outcome<bool>)
  {
    if o.None? then Success(false)
    else if !ArraysEqual(f.recordGroups, o.value.recordGroups, RecordGroupEquals) then Success(false)
    else if f.schema != o.value.schema then Success(false)
    else if f.customTypes != o.value.customTypes then Success(false)
    else if f.metadata.None? then Failure(NullPointer)
    else Success(o.value.metadata == f.metadata)
  }

  /** `File.equals` is equality of the values, except that it throws for a
      file without metadata compared with one equal to it up to the
      metadata. */
  lemma FileEqualsIff<S, C>(f: File<S, C>, o: Option<File<S, C>>)
    ensures FileEquals(f, o).Failure? <==>
      && o.Some? && f.metadata.None?
      && f.recordGroups == o.value.recordGroups && f.schema == o.value.schema
      && f.customTypes == o.value.customTypes
    ensures FileEquals(f, o).Success? ==> (FileEquals(f, o).value <==> o == Some(f))
  {
    if o.Some? {
      if ArraysEqual(f.recordGroups, o.value.recordGroups, RecordGroupEquals) {
        forall k | 0 <= k < |f.recordGroups|
          ensures f.recordGroups[k] == o.value.recordGroups[k]
        {
          RecordGroupEqualsIff(f.recordGroups[k], Some(o.value.recordGroups[k]));
        }
        assert f.recordGroups == o.value.recordGroups;
      } else if f.recordGroups == o.value.recordGroups {
        forall k | 0 <= k < |f.recordGroups|
          ensures RecordGroupEquals(f.recordGroups[k], Some(o.value.recordGroups[k]))
        {
          RecordGroupEqualsIff(f.recordGroups[k], Some(o.value.recordGroups[k]));
        }
      }
    }
  }
}
