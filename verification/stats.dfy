/** `Stats`: size statistics of pages, column chunks, columns, record
    groups and whole files. Each aggregate counts its parts and sums their
    fields. The Java fields are `long`s; the sums here are unbounded. */
module Stats {
  import opened Seqs

  /** The sum of `f` over `xs`. */
  function Sum<T>(xs: seq<T>, f: T -> int): int {
    if |xs| == 0 then 0 else Sum(xs[..|xs| - 1], f) + f(xs[|xs| - 1])
  }

  lemma {:induction false} SumConcat<T>(a: seq<T>, b: seq<T>, f: T -> int)
    ensures Sum(a + b, f) == Sum(a, f) + Sum(b, f)
    decreases |b|
  {
    if |b| > 0 {
      assert (a + b)[..|a + b| - 1] == a + b[..|b| - 1];
      SumConcat(a, b[..|b| - 1], f);
    } else {
      assert a + b == a;
    }
  }

  /** A sum of zeros is zero. */
  lemma {:induction false} SumZero<T>(xs: seq<T>, f: T -> int)
    requires forall k | 0 <= k < |xs| :: f(xs[k]) == 0
    ensures Sum(xs, f) == 0
  {
    if |xs| > 0 {
      SumZero(xs[..|xs| - 1], f);
    }
  }

  /** Summing the per-part sums is summing over all parts' elements. */
  lemma {:induction false} SumOfSums<T, U>(xss: seq<seq<T>>, parts: seq<U>, f: T -> int, h: U -> int)
    requires |parts| == |xss| && forall k | 0 <= k < |xss| :: h(parts[k]) == Sum(xss[k], f)
    ensures Sum(parts, h) == Sum(Flatten(xss), f)
  {
    if |xss| > 0 {
      var n := |xss| - 1;
      SumOfSums(xss[..n], parts[..n], f, h);
      SumConcat(Flatten(xss[..n]), xss[n], f);
    }
  }

  // ---------------------------------------------------------------------
  // Pages

  datatype Page = Page(
    numValues: int, numNonNilValues: int, length: int, dataHeaderLength: int,
    repetitionLevelsLength: int, definitionLevelsLength: int, dataLength: int,
    numDictionaryValues: int, dictionaryHeaderLength: int, dictionaryLength: int)

  /** `createDataPageStats`: the data fields as given, the dictionary
      fields zero. */
  function DataPageStats(numValues: int, numNonNilValues: int, length: int, headerLength: int,
                         repetitionLevelsLength: int, definitionLevelsLength: int, dataLength: int): (p: Page)
    ensures p.numDictionaryValues == 0 && p.dictionaryHeaderLength == 0 && p.dictionaryLength == 0
    ensures p.numValues == numValues && p.numNonNilValues == numNonNilValues && p.length == length
    ensures p.dataHeaderLength == headerLength && p.dataLength == dataLength
    ensures p.repetitionLevelsLength == repetitionLevelsLength && p.definitionLevelsLength == definitionLevelsLength
  {
    Page(numValues, numNonNilValues, length, headerLength, repetitionLevelsLength, definitionLevelsLength,
         dataLength, 0, 0, 0)
  }

  /** `createDictionaryPageStats`: the dictionary fields as given, the data
      fields zero; the page's values count as dictionary values. */
  function DictionaryPageStats(numValues: int, length: int, dictionaryHeaderLength: int,
                               dictionaryLength: int): (p: Page)
    ensures p.numValues == 0 && p.numNonNilValues == 0 && p.dataHeaderLength == 0
    ensures p.repetitionLevelsLength == 0 && p.definitionLevelsLength == 0 && p.dataLength == 0
    ensures p.numDictionaryValues == numValues && p.length == length
    ensures p.dictionaryHeaderLength == dictionaryHeaderLength && p.dictionaryLength == dictionaryLength
  {
    Page(0, 0, length, 0, 0, 0, 0, numValues, dictionaryHeaderLength, dictionaryLength)
  }

  // ---------------------------------------------------------------------
  // Column chunks

  datatype ColumnChunk = ColumnChunk(
    numPages: int, numValues: int, numNonNilValues: int, length: int, dataHeaderLength: int,
    repetitionLevelsLength: int, definitionLevelsLength: int, dataLength: int,
    numDictionaryValues: int, dictionaryHeaderLength: int, dictionaryLength: int)

  /** The column-chunk statistics of `pages`: their number, and each field
      summed. */
  function ChunkOf(pages: seq<Page>): ColumnChunk {
    ColumnChunk(|pages|,
      Sum(pages, (p: Page) => p.numValues), Sum(pages, (p: Page) => p.numNonNilValues),
      Sum(pages, (p: Page) => p.length), Sum(pages, (p: Page) => p.dataHeaderLength),
      Sum(pages, (p: Page) => p.repetitionLevelsLength), Sum(pages, (p: Page) => p.definitionLevelsLength),
      Sum(pages, (p: Page) => p.dataLength), Sum(pages, (p: Page) => p.numDictionaryValues),
      Sum(pages, (p: Page) => p.dictionaryHeaderLength), Sum(pages, (p: Page) => p.dictionaryLength))
  }

  /** `createColumnChunkStats`: the accumulating loop. */
  method CreateColumnChunkStats(pages: seq<Page>) returns (c: ColumnChunk)
    ensures c == ChunkOf(pages)
  {
    c := ColumnChunk(0, 0, 0, 0, 0, 0, 0, 0, 0, 0, 0);
    for k := 0 to |pages|
      invariant c == ChunkOf(pages[..k])
    {
      var p := pages[k];
      assert pages[..k + 1][..k] == pages[..k];
      c := ColumnChunk(c.numPages + 1, c.numValues + p.numValues, c.numNonNilValues + p.numNonNilValues,
        c.length + p.length, c.dataHeaderLength + p.dataHeaderLength,
        c.repetitionLevelsLength + p.repetitionLevelsLength, c.definitionLevelsLength + p.definitionLevelsLength,
        c.dataLength + p.dataLength, c.numDictionaryValues + p.numDictionaryValues,
        c.dictionaryHeaderLength + p.dictionaryHeaderLength, c.dictionaryLength + p.dictionaryLength);
    }
    assert pages[..|pages|] == pages;
  }

  /** A chunk of data pages only has no dictionary values or lengths. */
  lemma DataPagesOnly(pages: seq<Page>)
    requires forall k | 0 <= k < |pages| ::
      pages[k].numDictionaryValues == 0 && pages[k].dictionaryHeaderLength == 0 && pages[k].dictionaryLength == 0
    ensures ChunkOf(pages).numDictionaryValues == 0
    ensures ChunkOf(pages).dictionaryHeaderLength == 0 && ChunkOf(pages).dictionaryLength == 0
  {
    SumZero(pages, (p: Page) => p.numDictionaryValues);
    SumZero(pages, (p: Page) => p.dictionaryHeaderLength);
    SumZero(pages, (p: Page) => p.dictionaryLength);
  }

  // ---------------------------------------------------------------------
  // Columns

  /** The column statistics: the column's type, encoding, compression,
      levels and path, passed through, the number of chunks, and the chunk
      fields summed. */
  datatype Column = Column(
    columnType: string, encoding: string, compression: string,
    maxRepetitionLevel: int, maxDefinitionLevel: int, numColumnChunks: int, path: seq<string>,
    numPages: int, numValues: int, numNonNilValues: int, length: int, dataHeaderLength: int,
    repetitionLevelsLength: int, definitionLevelsLength: int, dataLength: int,
    numDictionaryValues: int, dictionaryHeaderLength: int, dictionaryLength: int)

  function ColumnOf(columnType: string, encoding: string, compression: string, maxRepetitionLevel: int,
                    maxDefinitionLevel: int, path: seq<string>, chunks: seq<ColumnChunk>): Column {
    Column(columnType, encoding, compression, maxRepetitionLevel, maxDefinitionLevel, |chunks|, path,
      Sum(chunks, (c: ColumnChunk) => c.numPages), Sum(chunks, (c: ColumnChunk) => c.numValues),
      Sum(chunks, (c: ColumnChunk) => c.numNonNilValues), Sum(chunks, (c: ColumnChunk) => c.length),
      Sum(chunks, (c: ColumnChunk) => c.dataHeaderLength), Sum(chunks, (c: ColumnChunk) => c.repetitionLevelsLength),
      Sum(chunks, (c: ColumnChunk) => c.definitionLevelsLength), Sum(chunks, (c: ColumnChunk) => c.dataLength),
      Sum(chunks, (c: ColumnChunk) => c.numDictionaryValues),
      Sum(chunks, (c: ColumnChunk) => c.dictionaryHeaderLength), Sum(chunks, (c: ColumnChunk) => c.dictionaryLength))
  }

  /** `createColumnStats`: the accumulating loop. */
  method CreateColumnStats(columnType: string, encoding: string, compression: string, maxRepetitionLevel: int,
                           maxDefinitionLevel: int, path: seq<string>, chunks: seq<ColumnChunk>)
    returns (c: Column)
    ensures c == ColumnOf(columnType, encoding, compression, maxRepetitionLevel, maxDefinitionLevel, path, chunks)
  {
    c := Column(columnType, encoding, compression, maxRepetitionLevel, maxDefinitionLevel, 0, path,
      0, 0, 0, 0, 0, 0, 0, 0, 0, 0, 0);
    for k := 0 to |chunks|
      invariant c == ColumnOf(columnType, encoding, compression, maxRepetitionLevel, maxDefinitionLevel, path,
        chunks[..k])
    {
      var x := chunks[k];
      assert chunks[..k + 1][..k] == chunks[..k];
      c := c.(numColumnChunks := c.numColumnChunks + 1, numPages := c.numPages + x.numPages,
        numValues := c.numValues + x.numValues, numNonNilValues := c.numNonNilValues + x.numNonNilValues,
        length := c.length + x.length, dataHeaderLength := c.dataHeaderLength + x.dataHeaderLength,
        repetitionLevelsLength := c.repetitionLevelsLength + x.repetitionLevelsLength,
        definitionLevelsLength := c.definitionLevelsLength + x.definitionLevelsLength,
        dataLength := c.dataLength + x.dataLength, numDictionaryValues := c.numDictionaryValues + x.numDictionaryValues,
        dictionaryHeaderLength := c.dictionaryHeaderLength + x.dictionaryHeaderLength,
        dictionaryLength := c.dictionaryLength + x.dictionaryLength);
    }
    assert chunks[..|chunks|] == chunks;
  }

  /** The column statistics of chunks built from page lists count every
      page and sum every page's values and bytes. */
  lemma ColumnOfPages(columnType: string, encoding: string, compression: string, maxRepetitionLevel: int,
                      maxDefinitionLevel: int, path: seq<string>, pagess: seq<seq<Page>>, chunks: seq<ColumnChunk>)
    requires |chunks| == |pagess| && forall k | 0 <= k < |pagess| :: chunks[k] == ChunkOf(pagess[k])
    ensures var c := ColumnOf(columnType, encoding, compression, maxRepetitionLevel, maxDefinitionLevel, path, chunks);
      && c.numColumnChunks == |pagess|
      && c.numPages == |Flatten(pagess)|
      && c.numValues == Sum(Flatten(pagess), (p: Page) => p.numValues)
      && c.length == Sum(Flatten(pagess), (p: Page) => p.length)
  {
    var one := (p: Page) => 1;
    CountIsSum(Flatten(pagess));
    forall k | 0 <= k < |pagess|
      ensures chunks[k].numPages == Sum(pagess[k], one)
    {
      CountIsSum(pagess[k]);
    }
    SumOfSums(pagess, chunks, one, (c: ColumnChunk) => c.numPages);
    SumOfSums(pagess, chunks, (p: Page) => p.numValues, (c: ColumnChunk) => c.numValues);
    SumOfSums(pagess, chunks, (p: Page) => p.length, (c: ColumnChunk) => c.length);
  }

  lemma {:induction false} CountIsSum(pages: seq<Page>)
    ensures Sum(pages, (p: Page) => 1) == |pages|
  {
    if |pages| > 0 {
      CountIsSum(pages[..|pages| - 1]);
    }
  }

  // ---------------------------------------------------------------------
  // Record groups and files

  datatype RecordGroup = RecordGroup(
    numRecords: int, numColumnChunks: int, length: int, dataHeaderLength: int,
    repetitionLevelsLength: int, definitionLevelsLength: int, dataLength: int,
    dictionaryHeaderLength: int, dictionaryLength: int)

  /** The record-group statistics: the record count passed through, the
      number of chunks and their byte fields summed. */
  function RecordGroupOf(numRecords: int, chunks: seq<ColumnChunk>): RecordGroup {
    RecordGroup(numRecords, |chunks|,
      Sum(chunks, (c: ColumnChunk) => c.length), Sum(chunks, (c: ColumnChunk) => c.dataHeaderLength),
      Sum(chunks, (c: ColumnChunk) => c.repetitionLevelsLength), Sum(chunks, (c: ColumnChunk) => c.definitionLevelsLength),
      Sum(chunks, (c: ColumnChunk) => c.dataLength), Sum(chunks, (c: ColumnChunk) => c.dictionaryHeaderLength),
      Sum(chunks, (c: ColumnChunk) => c.dictionaryLength))
  }

  /** `createRecordGroupStats`: the accumulating loop. */
  method CreateRecordGroupStats(numRecords: int, chunks: seq<ColumnChunk>) returns (g: RecordGroup)
    ensures g == RecordGroupOf(numRecords, chunks)
  {
    g := RecordGroup(numRecords, 0, 0, 0, 0, 0, 0, 0, 0);
    for k := 0 to |chunks|
      invariant g == RecordGroupOf(numRecords, chunks[..k])
    {
      var x := chunks[k];
      assert chunks[..k + 1][..k] == chunks[..k];
      g := g.(numColumnChunks := g.numColumnChunks + 1, length := g.length + x.length,
        dataHeaderLength := g.dataHeaderLength + x.dataHeaderLength,
        repetitionLevelsLength := g.repetitionLevelsLength + x.repetitionLevelsLength,
        definitionLevelsLength := g.definitionLevelsLength + x.definitionLevelsLength,
        dataLength := g.dataLength + x.dataLength,
        dictionaryHeaderLength := g.dictionaryHeaderLength + x.dictionaryHeaderLength,
        dictionaryLength := g.dictionaryLength + x.dictionaryLength);
    }
    assert chunks[..|chunks|] == chunks;
  }

  datatype Global = Global(
    numColumns: int, numRecordGroups: int, numRecords: int, length: int, dataHeaderLength: int,
    repetitionLevelsLength: int, definitionLevelsLength: int, dataLength: int,
    dictionaryHeaderLength: int, dictionaryLength: int, metadataLength: int)

  /** The file statistics: the length, metadata length and column count
      passed through, the number of record groups, and their records and
      byte fields summed. */
  function GlobalOf(length: int, metadataLength: int, numColumns: int, groups: seq<RecordGroup>): Global {
    Global(numColumns, |groups|, Sum(groups, (g: RecordGroup) => g.numRecords), length,
      Sum(groups, (g: RecordGroup) => g.dataHeaderLength), Sum(groups, (g: RecordGroup) => g.repetitionLevelsLength),
      Sum(groups, (g: RecordGroup) => g.definitionLevelsLength), Sum(groups, (g: RecordGroup) => g.dataLength),
      Sum(groups, (g: RecordGroup) => g.dictionaryHeaderLength), Sum(groups, (g: RecordGroup) => g.dictionaryLength),
      metadataLength)
  }

  /** `createGlobalStats`: the accumulating loop. */
  method CreateGlobalStats(length: int, metadataLength: int, numColumns: int, groups: seq<RecordGroup>)
    returns (s: Global)
    ensures s == GlobalOf(length, metadataLength, numColumns, groups)
  {
    s := Global(numColumns, 0, 0, length, 0, 0, 0, 0, 0, 0, metadataLength);
    for k := 0 to |groups|
      invariant s == GlobalOf(length, metadataLength, numColumns, groups[..k])
    {
      var x := groups[k];
      assert groups[..k + 1][..k] == groups[..k];
      s := s.(numRecordGroups := s.numRecordGroups + 1, numRecords := s.numRecords + x.numRecords,
        dataHeaderLength := s.dataHeaderLength + x.dataHeaderLength,
        repetitionLevelsLength := s.repetitionLevelsLength + x.repetitionLevelsLength,
        definitionLevelsLength := s.definitionLevelsLength + x.definitionLevelsLength,
        dataLength := s.dataLength + x.dataLength,
        dictionaryHeaderLength := s.dictionaryHeaderLength + x.dictionaryHeaderLength,
        dictionaryLength := s.dictionaryLength + x.dictionaryLength);
    }
    assert groups[..|groups|] == groups;
  }
}
