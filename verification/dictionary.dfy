/** dendrite's `Dictionary` encoding: each distinct value gets an index, in
    order of first appearance, and the column stores the indices with the
    `IntPackedRunLength` encoding; the decoder looks the indices up in the
    dictionary. The encoder's hash map from value to (index, count) is
    modelled by two sequences read by index: `keys[i]` is the value with
    index `i` and `counts[i]` how often it was encoded. Values are compared
    with Dafny's `==`, which on byte arrays (`seq<byte>`) compares contents,
    as `HashableByteArray.equals` does. */
module Dictionaries {
  import opened Wrappers
  import opened Words
  import opened Encoding
  import opened Seqs
  import IPR = IntPackedRunLength
  import H = IntFixedBitWidthPackedRunLength

  /** `MAX_DISTINCT_VALUES`: the largest index a value may get. */
  const MAX_DISTINCT_VALUES: nat := TWO_31 - 2

  /** No value appears twice. */
  predicate Distinct<V(==)>(s: seq<V>) {
    forall i, j | 0 <= i < j < |s| :: s[i] != s[j]
  }

  /** The values of `vs`, each once. */
  function Values<V(==)>(vs: seq<V>): set<V> {
    set x | x in vs
  }

  // ---------------------------------------------------------------------
  // Encoder

  datatype Encoder<V(==)> = Encoder(keys: seq<V>, counts: seq<nat>, indices: IPR.Encoder)
  {
    /** One count per key, no key twice, every index an `int`, and a valid
        indices encoder. */
    predicate Valid() {
      && |keys| == |counts| && |keys| <= MAX_DISTINCT_VALUES + 1
      && Distinct(keys) && indices.Valid()
    }
  }

  /** `new Encoder()`: an empty dictionary and a new indices encoder. */
  function NewEncoder<V(==)>(): (e: Encoder<V>)
    ensures e.Valid() && e.keys == [] && e.counts == []
  {
    Encoder([], [], IPR.NewEncoder)
  }

  /** `dictionaryIndex.get(key)`: the index of `v`, or `|keys|` when `v`
      has none. */
  function Position<V(==)>(keys: seq<V>, v: V): (i: nat)
    ensures i <= |keys| && (i < |keys| <==> v in keys)
    ensures i < |keys| ==> keys[i] == v
    ensures forall k | 0 <= k < i :: keys[k] != v
  {
    if |keys| == 0 then 0
    else if keys[0] == v then 0
    else 1 + Position(keys[1..], v)
  }

  /** `getIndex`: a known value keeps its index and its count goes up by
      one; a new value gets the next index, `numDictionaryValues`, with a
      count of one, unless that index would exceed `MAX_DISTINCT_VALUES`. */
  function GetIndex<V(==)>(e: Encoder<V>, v: V): (r: Outcome<(nat, Encoder<V>)>)
    requires e.Valid()
    ensures r.Success? ==> r.value.1.Valid() && r.value.1.indices == e.indices
    ensures r.Success? ==> r.value.0 < |r.value.1.keys| && r.value.1.keys[r.value.0] == v
    ensures v in e.keys ==>
      && r.Success? && r.value.1.keys == e.keys
      && r.value.0 == Position(e.keys, v)
      && r.value.1.counts == e.counts[r.value.0 := e.counts[r.value.0] + 1]
    ensures v !in e.keys ==> (r.Success? <==> |e.keys| <= MAX_DISTINCT_VALUES)
    ensures v !in e.keys && r.Success? ==>
      && r.value.0 == |e.keys|
      && r.value.1.keys == e.keys + [v] && r.value.1.counts == e.counts + [1]
  {
    var i := Position(e.keys, v);
    if i < |e.keys| then
      Success((i, e.(counts := e.counts[i := e.counts[i] + 1])))
    else if i > MAX_DISTINCT_VALUES then
      Failure(IllegalState("Dictionary size exceed allowed maximum"))
    else
      Success((i, e.(keys := e.keys + [v], counts := e.counts + [1])))
  }

  /** `encode`: the value's index goes to the indices encoder. */
  function Encode<V(==)>(e: Encoder<V>, v: V): (r: Outcome<Encoder<V>>)
    requires e.Valid()
    ensures r.Success? <==> GetIndex(e, v).Success?
    ensures r.Success? ==>
      && r.value.Valid()
      && r.value.keys == GetIndex(e, v).value.1.keys && r.value.counts == GetIndex(e, v).value.1.counts
      && r.value.indices.numBufferedValues == e.indices.numBufferedValues + 1
  {
    var (i, e1) :- GetIndex(e, v);
    Success(e1.(indices := IPR.Encode(e1.indices, i as int32)))
  }

  /** The encoder after encoding `vs` from a new one, or the exception
      the first failing `encode` throws. */
  function EncodeAll<V(==)>(vs: seq<V>): (r: Outcome<Encoder<V>>)
    ensures r.Success? ==> r.value.Valid()
  {
    if |vs| == 0 then Success(NewEncoder())
    else
      var e :- EncodeAll(vs[..|vs| - 1]);
      Encode(e, vs[|vs| - 1])
  }

  /** `EncoderWithFn.encode`: the function is applied before encoding. */
  function EncodeWithFn<V, W(==)>(e: Encoder<W>, fn: V -> W, v: V): (r: Outcome<Encoder<W>>)
    requires e.Valid()
    ensures r.Success? ==> r.value.Valid()
  {
    Encode(e, fn(v))
  }

  /** The encoder with a function after encoding `vs` from a new one. */
  function EncodeAllWithFn<V, W(==)>(fn: V -> W, vs: seq<V>): (r: Outcome<Encoder<W>>)
    ensures r.Success? ==> r.value.Valid()
  {
    if |vs| == 0 then Success(NewEncoder())
    else
      var e :- EncodeAllWithFn(fn, vs[..|vs| - 1]);
      EncodeWithFn(e, fn, vs[|vs| - 1])
  }

  /** `numEncodedValues`, delegated to the indices encoder. */
  function NumEncodedValues<V(==)>(e: Encoder<V>): (n: nat) {
    e.indices.numBufferedValues
  }

  /** `reset`: resets the indices encoder and keeps the dictionary. */
  function Reset<V(==)>(e: Encoder<V>): (r: Encoder<V>)
    requires e.Valid()
    ensures r.Valid() && NumEncodedValues(r) == 0
  {
    e.(indices := IPR.Reset(e.indices))
  }

  /** `resetDictionary`: forgets every value and its index, and leaves the
      indices encoder alone. */
  function ResetDictionary<V(==)>(e: Encoder<V>): (r: Encoder<V>)
    requires e.Valid()
    ensures r.Valid() && r.keys == [] && NumEncodedValues(r) == NumEncodedValues(e)
  {
    e.(keys := [], counts := [])
  }

  /** `finish`, delegated to the indices encoder. */
  function Finish<V(==)>(e: Encoder<V>): (r: Outcome<Encoder<V>>)
    requires e.Valid()
    ensures r.Success? ==> r.value.Valid() && r.value.keys == e.keys && r.value.indices.isFinished
  {
    var indices :- IPR.Finish(e.indices);
    Success(e.(indices := indices))
  }

  /** `writeTo`: what the indices encoder writes. */
  function WriteTo<V(==)>(e: Encoder<V>): (r: Outcome<seq<byte>>)
    requires e.Valid()
  {
    IPR.WriteTo(e.indices)
  }

  /** `length`, delegated to the indices encoder. */
  function GetLength<V(==)>(e: Encoder<V>): (n: nat) {
    IPR.GetLength(e.indices)
  }

  /** `estimatedLength`, delegated to the indices encoder. */
  function GetEstimatedLength<V(==)>(e: Encoder<V>): (n: int32) {
    IPR.GetEstimatedLength(e.indices)
  }

  /** `numDictionaryValues`: the size of the map. */
  function NumDictionaryValues<V(==)>(e: Encoder<V>): (n: nat) {
    |e.keys|
  }

  /** `getDictionary`: the values, each at its index. */
  function GetDictionary<V(==)>(e: Encoder<V>): (dict: seq<V>)
    ensures |dict| == NumDictionaryValues(e)
  {
    e.keys
  }

  // ---------------------------------------------------------------------
  // Indices by frequency

  /** Each index's count is at least that of every index after it. */
  predicate Descending(counts: seq<nat>, s: seq<nat>) {
    forall a, b | 0 <= a < b < |s| :: s[a] < |counts| && s[b] < |counts| ==> counts[s[a]] >= counts[s[b]]
  }

  /** Every element is an index of `counts`. */
  predicate Indexes(counts: seq<nat>, s: seq<nat>) {
    forall k | 0 <= k < |s| :: s[k] < |counts|
  }

  /** One step of a stable sort by descending count: `i` goes before the
      first index whose count is smaller. */
  function InsertByCount(counts: seq<nat>, i: nat, s: seq<nat>): (r: seq<nat>)
    requires i < |counts| && Indexes(counts, s)
    ensures |r| == |s| + 1 && Indexes(counts, r)
    ensures multiset(r) == multiset(s) + multiset{i}
  {
    if |s| == 0 || counts[s[0]] < counts[i] then [i] + s
    else
      assert s == [s[0]] + s[1..];
      [s[0]] + InsertByCount(counts, i, s[1..])
  }

  /** Inserting into a descending sequence keeps it descending. */
  lemma {:induction false} InsertDescending(counts: seq<nat>, i: nat, s: seq<nat>)
    requires i < |counts| && Indexes(counts, s) && Descending(counts, s)
    ensures Descending(counts, InsertByCount(counts, i, s))
  {
    var r := InsertByCount(counts, i, s);
    if |s| == 0 || counts[s[0]] < counts[i] {
      forall a, b | 0 <= a < b < |r|
        ensures counts[r[a]] >= counts[r[b]]
      {
        if a == 0 && b > 1 {
          assert counts[s[0]] >= counts[s[b - 1]];
        }
      }
    } else {
      var t := InsertByCount(counts, i, s[1..]);
      InsertDescending(counts, i, s[1..]);
      assert r == [s[0]] + t;
      forall a, b | 0 <= a < b < |r|
        ensures counts[r[a]] >= counts[r[b]]
      {
        if a == 0 {
          assert t[b - 1] in multiset(t);
          if t[b - 1] != i {
            assert t[b - 1] in multiset(s[1..]);
            var m :| 0 <= m < |s[1..]| && s[1..][m] == t[b - 1];
            assert s[m + 1] == t[b - 1];
          }
        } else {
          assert r[a] == t[a - 1] && r[b] == t[b - 1];
        }
      }
    }
  }

  lemma IotaSnoc(n: nat)
    requires n > 0
    ensures multiset(Iota(n)) == multiset(Iota(n - 1)) + multiset{(n - 1) as nat}
  {
    assert Iota(n) == Iota(n - 1) + [n - 1];
  }

  /** The indices `0 .. n - 1`. */
  function Iota(n: nat): (r: seq<nat>)
    ensures |r| == n && forall k | 0 <= k < n :: r[k] == k
  {
    seq(n, k => k)
  }

  /** The first `n` indices, sorted by descending count. */
  function SortByCount(counts: seq<nat>, n: nat): (r: seq<nat>)
    requires n <= |counts|
    ensures |r| == n && Indexes(counts, r)
    ensures multiset(r) == multiset(Iota(n))
  {
    if n == 0 then []
    else
      IotaSnoc(n);
      InsertByCount(counts, n - 1, SortByCount(counts, n - 1))
  }

  /** The sort's result is descending by count. */
  lemma {:induction false} SortByCountDescending(counts: seq<nat>, n: nat)
    requires n <= |counts|
    ensures Descending(counts, SortByCount(counts, n))
  {
    if n > 0 {
      SortByCountDescending(counts, n - 1);
      SortByCountStep(counts, n);
    }
  }

  lemma SortByCountStep(counts: seq<nat>, n: nat)
    requires 0 < n <= |counts| && Descending(counts, SortByCount(counts, n - 1))
    ensures Descending(counts, SortByCount(counts, n))
  {
    var s := SortByCount(counts, n - 1);
    InsertDescending(counts, n - 1, s);
    assert SortByCount(counts, n) == InsertByCount(counts, n - 1, s);
  }

  /** `getIndicesByFrequency`: every index once, most frequent first. The
      map's iteration order, which the stable sort keeps among equal
      counts, is unspecified; the model starts from index order. */
  function GetIndicesByFrequency<V(==)>(e: Encoder<V>): (r: seq<nat>)
    requires e.Valid()
  {
    SortByCount(e.counts, |e.counts|)
  }

  // ---------------------------------------------------------------------
  // Decoder

  /** The decoder: an indices decoder and the dictionary. */
  datatype Decoder<V> = Decoder(indices: H.Decoder, dictionary: seq<V>)

  /** `new Decoder(indicesDecoder, dictionary)` over an `IntPackedRunLength`
      stream; the count is `numEncodedValues`. */
  function NewDecoder<V(==)>(bs: seq<byte>, dictionary: seq<V>): (r: Outcome<(int32, Decoder<V>)>)
    ensures r.Success? ==> r.value.1.dictionary == dictionary
    ensures r.Success? <==> IPR.NewDecoder(bs).Success?
  {
    var (n, d) :- IPR.NewDecoder(bs);
    Success((n, Decoder(d, dictionary)))
  }

  /** `decode`: the dictionary entry at the next index; an index outside
      the dictionary throws. */
  function Decode<V(==)>(d: Decoder<V>): (r: Outcome<(V, Decoder<V>)>)
    ensures r.Success? <==>
      && IPR.Decode(d.indices).Success?
      && 0 <= IPR.Decode(d.indices).value.0 < |d.dictionary|
    ensures r.Success? ==>
      && r.value.0 == d.dictionary[IPR.Decode(d.indices).value.0]
      && r.value.1 == Decoder(IPR.Decode(d.indices).value.1, d.dictionary)
    ensures IPR.Decode(d.indices).Success? && r.Failure? ==> r.error == IndexOutOfBounds
  {
    var (i, indices) :- IPR.Decode(d.indices);
    if 0 <= i < |d.dictionary| then Success((d.dictionary[i], Decoder(indices, d.dictionary)))
    else Failure(IndexOutOfBounds)
  }

  /** The dictionary entries at `is`. */
  function Lookup<V(==)>(dictionary: seq<V>, ixs: seq<int32>): (r: seq<V>)
    requires forall k | 0 <= k < |ixs| :: 0 <= ixs[k] < |dictionary|
    ensures |r| == |ixs| && forall k | 0 <= k < |ixs| :: r[k] == dictionary[ixs[k]]
  {
    seq(|ixs|, k requires 0 <= k < |ixs| => dictionary[ixs[k]])
  }

  // ---------------------------------------------------------------------
  // Properties

  /** A known value keeps its index, and the dictionary holds the value at
      the index `getIndex` returns. */
  lemma DictionaryAtIndex<V>(e: Encoder<V>, v: V)
    requires e.Valid() && GetIndex(e, v).Success?
    ensures var (i, e1) := GetIndex(e, v).value; GetDictionary(e1)[i] == v
    ensures v in e.keys ==> GetIndex(e, v).value.0 == Position(e.keys, v) && e.keys[Position(e.keys, v)] == v
  {
  }

  /** Encoding the same value twice gives it one index: the second
      `getIndex` returns the first one's index and adds no value. */
  lemma SameValueSameIndex<V>(e: Encoder<V>, v: V)
    requires e.Valid() && GetIndex(e, v).Success?
    ensures var (i, e1) := GetIndex(e, v).value;
      GetIndex(e1, v).Success? && GetIndex(e1, v).value.0 == i
      && NumDictionaryValues(GetIndex(e1, v).value.1) == NumDictionaryValues(e1)
  {
    var (i, e1) := GetIndex(e, v).value;
    assert e1.keys[i] == v;
  }

  /** `ByteArrayEncoder` keys: two arrays with the same bytes are one key,
      whatever arrays hold them. */
  lemma ByteArraysByContent(e: Encoder<seq<byte>>, a: seq<byte>, b: seq<byte>)
    requires e.Valid() && GetIndex(e, a).Success?
    requires |a| == |b| && forall k | 0 <= k < |a| :: a[k] == b[k]
    ensures var (i, e1) := GetIndex(e, a).value;
      && GetIndex(e1, b).Success? && GetIndex(e1, b).value.0 == i
      && NumDictionaryValues(GetIndex(e1, b).value.1) == NumDictionaryValues(e1)
  {
    assert a == b;
    SameValueSameIndex(e, a);
  }

  /** `reset` keeps the dictionary: a known value gets its old index again;
      after `resetDictionary` the next value gets index 0. */
  lemma ResetKeepsIndices<V>(e: Encoder<V>, v: V)
    requires e.Valid()
    ensures v in e.keys ==>
      && GetIndex(Reset(e), v).Success? && GetIndex(e, v).Success?
      && GetIndex(Reset(e), v).value.0 == GetIndex(e, v).value.0
    ensures GetIndex(ResetDictionary(e), v).Success? && GetIndex(ResetDictionary(e), v).value.0 == 0
  {
  }

  /** Every one of `vs` has an index. */
  predicate Covered<V(==)>(keys: seq<V>, vs: seq<V>) {
    forall k | 0 <= k < |vs| :: vs[k] in keys
  }

  /** Every key is one of `vs`, and its count is how often it occurs. */
  predicate Counted<V(==)>(keys: seq<V>, counts: seq<nat>, vs: seq<V>) {
    && |keys| == |counts|
    && forall j | 0 <= j < |keys| :: keys[j] in vs && counts[j] == multiset(vs)[keys[j]]
  }

  /** What an encoder holds after encoding `vs`: every value has an index
      holding it, every key was encoded as often as its count says, and
      the indices encoder received the values' indices in order. */
  predicate Represents<V(==)>(e: Encoder<V>, vs: seq<V>) {
    && e.Valid()
    && Covered(e.keys, vs)
    && Counted(e.keys, e.counts, vs)
    && e.indices == IPR.EncodeAll(IndicesOf(e.keys, vs))
  }

  /** The index of each of `vs`. */
  function IndicesOf<V(==)>(keys: seq<V>, vs: seq<V>): (ixs: seq<int32>)
    requires |keys| < TWO_31
    ensures |ixs| == |vs|
    ensures forall k | 0 <= k < |vs| :: ixs[k] == Position(keys, vs[k])
  {
    seq(|vs|, k requires 0 <= k < |vs| => Position(keys, vs[k]) as int32)
  }

  /** The index of an old value does not change when a new value is
      added after it. */
  lemma IndicesOfExtended<V>(keys: seq<V>, v: V, vs: seq<V>)
    requires |keys| + 1 < TWO_31 && Covered(keys, vs)
    ensures IndicesOf(keys + [v], vs) == IndicesOf(keys, vs)
  {
    forall k | 0 <= k < |vs|
      ensures Position(keys + [v], vs[k]) == Position(keys, vs[k])
    {
      var q := Position(keys, vs[k]);
      assert (keys + [v])[q] == vs[k];
    }
  }

  lemma IndicesOfSnoc<V>(keys: seq<V>, vs: seq<V>, v: V)
    requires |keys| < TWO_31
    ensures IndicesOf(keys, vs + [v]) == IndicesOf(keys, vs) + [Position(keys, v) as int32]
  {
  }

  /** After `getIndex`, the old values keep their indices and the new one
      comes last. */
  lemma IndicesAfter<V>(keys: seq<V>, keys2: seq<V>, vs: seq<V>, v: V)
    requires |keys2| < TWO_31 && Covered(keys, vs)
    requires keys2 == keys || keys2 == keys + [v]
    ensures IndicesOf(keys2, vs + [v]) == IndicesOf(keys, vs) + [Position(keys2, v) as int32]
  {
    if keys2 != keys {
      IndicesOfExtended(keys, v, vs);
    }
    IndicesOfSnoc(keys2, vs, v);
  }

  lemma EncodeAllSnoc(ixs: seq<int32>, i: int32)
    ensures IPR.EncodeAll(ixs + [i]) == IPR.Encode(IPR.EncodeAll(ixs), i)
  {
    assert (ixs + [i])[..|ixs|] == ixs;
  }

  lemma CoveredSnoc<V>(keys: seq<V>, vs: seq<V>, v: V)
    requires Covered(keys, vs) && v in keys
    ensures Covered(keys, vs + [v])
  {
  }

  /** A known value's count goes up by one. */
  lemma CountedKnown<V>(keys: seq<V>, counts: seq<nat>, vs: seq<V>, v: V, i: nat)
    requires Counted(keys, counts, vs) && Distinct(keys) && i < |keys| && keys[i] == v
    ensures Counted(keys, counts[i := counts[i] + 1], vs + [v])
  {
    assert multiset(vs + [v]) == multiset(vs) + multiset{v};
  }

  /** A new value has a count of one. */
  lemma CountedNew<V>(keys: seq<V>, counts: seq<nat>, vs: seq<V>, v: V)
    requires Counted(keys, counts, vs) && Covered(keys, vs) && v !in keys
    ensures Counted(keys + [v], counts + [1], vs + [v])
  {
    assert multiset(vs + [v]) == multiset(vs) + multiset{v};
    assert v !in vs;
    forall j | 0 <= j < |keys| + 1
      ensures (keys + [v])[j] in vs + [v] && (counts + [1])[j] == multiset(vs + [v])[(keys + [v])[j]]
    {
      if j < |keys| {
        assert (keys + [v])[j] == keys[j] && (counts + [1])[j] == counts[j];
      }
    }
  }

  /** `getIndex` keeps every value covered and every count right. */
  lemma GetIndexRepresents<V>(e: Encoder<V>, vs: seq<V>, v: V)
    requires Represents(e, vs) && GetIndex(e, v).Success?
    ensures var e1 := GetIndex(e, v).value.1;
      && Covered(e1.keys, vs + [v]) && Counted(e1.keys, e1.counts, vs + [v])
      && (e1.keys == e.keys || e1.keys == e.keys + [v])
      && GetIndex(e, v).value.0 == Position(e1.keys, v)
  {
    var (i, e1) := GetIndex(e, v).value;
    if v in e.keys {
      CountedKnown(e.keys, e.counts, vs, v, i);
    } else {
      CountedNew(e.keys, e.counts, vs, v);
      assert e1.keys[|e.keys|] == v;
    }
    CoveredSnoc(e1.keys, vs, v);
  }

  /** Encoding one more value keeps `Represents`, for a known value and a
      new one alike. */
  lemma EncodeRepresents<V>(e: Encoder<V>, vs: seq<V>, v: V)
    requires Represents(e, vs) && Encode(e, v).Success?
    ensures Represents(Encode(e, v).value, vs + [v])
  {
    var (i, e1) := GetIndex(e, v).value;
    GetIndexRepresents(e, vs, v);
    IndicesAfter(e.keys, e1.keys, vs, v);
    EncodeAllSnoc(IndicesOf(e.keys, vs), i as int32);
  }

  /** Encoding from a new encoder represents the values encoded. */
  lemma {:induction false} EncodeAllRepresents<V>(vs: seq<V>)
    requires EncodeAll(vs).Success?
    ensures Represents(EncodeAll(vs).value, vs)
  {
    if |vs| == 0 {
      assert IndicesOf([], vs) == [];
    } else {
      var front := vs[..|vs| - 1];
      EncodeAllRepresents(front);
      EncodeRepresents(EncodeAll(front).value, front, vs[|vs| - 1]);
      SplitLast(vs);
    }
  }

  /** A sequence without repeats has as many values as elements. */
  lemma {:induction false} DistinctValues<V>(s: seq<V>)
    requires Distinct(s)
    ensures |Values(s)| == |s|
  {
    if |s| > 0 {
      var front := s[..|s| - 1];
      DistinctValues(front);
      assert Values(s) == Values(front) + {s[|s| - 1]};
      assert s[|s| - 1] !in Values(front);
    }
  }

  /** `numDictionaryValues` is the number of distinct values encoded, and
      the dictionary is exactly those values. */
  lemma NumDictionaryValuesDistinct<V>(vs: seq<V>)
    requires EncodeAll(vs).Success?
    ensures Values(GetDictionary(EncodeAll(vs).value)) == Values(vs)
    ensures NumDictionaryValues(EncodeAll(vs).value) == |Values(vs)|
  {
    var e := EncodeAll(vs).value;
    EncodeAllRepresents(vs);
    DistinctValues(e.keys);
    assert Values(e.keys) == Values(vs);
  }

  /** One more value adds one distinct value exactly when it is new. */
  lemma ValuesSnoc<V>(front: seq<V>, v: V)
    ensures Values(front + [v]) == Values(front) + {v}
    ensures |Values(front + [v])| == |Values(front)| + if v in front then 0 else 1
  {
    assert Values(front + [v]) == Values(front) + {v};
  }

  /** Encoding succeeds exactly when there are at most
      `MAX_DISTINCT_VALUES + 1` distinct values. */
  lemma {:induction false} EncodeAllSucceeds<V>(vs: seq<V>)
    ensures EncodeAll(vs).Success? <==> |Values(vs)| <= MAX_DISTINCT_VALUES + 1
  {
    if |vs| > 0 {
      var front, v := vs[..|vs| - 1], vs[|vs| - 1];
      SplitLast(vs);
      ValuesSnoc(front, v);
      EncodeAllSucceeds(front);
      if EncodeAll(front).Success? {
        NumDictionaryValuesDistinct(front);
        assert v in EncodeAll(front).value.keys <==> v in Values(front);
      } else {
        SubsetSize(Values(front), Values(vs));
      }
    }
  }

  lemma SubsetSize<V>(a: set<V>, b: set<V>)
    requires a <= b
    ensures |a| <= |b|
  {
    assert b == a + (b - a);
  }

  /** The count of each dictionary value is how often it was encoded. */
  lemma CountsAreOccurrences<V>(vs: seq<V>, i: nat)
    requires EncodeAll(vs).Success? && i < NumDictionaryValues(EncodeAll(vs).value)
    ensures EncodeAll(vs).value.counts[i] == multiset(vs)[GetDictionary(EncodeAll(vs).value)[i]]
  {
    EncodeAllRepresents(vs);
  }

  /** `getIndicesByFrequency` lists every index once, and a value earlier in
      the list was encoded at least as often as any later one. */
  lemma IndicesByFrequency<V>(vs: seq<V>)
    requires EncodeAll(vs).Success?
    ensures var e := EncodeAll(vs).value; var r := GetIndicesByFrequency(e);
      && multiset(r) == multiset(Iota(NumDictionaryValues(e)))
      && forall a, b | 0 <= a < b < |r| ::
           multiset(vs)[GetDictionary(e)[r[a]]] >= multiset(vs)[GetDictionary(e)[r[b]]]
  {
    var e := EncodeAll(vs).value;
    var r := GetIndicesByFrequency(e);
    EncodeAllRepresents(vs);
    SortByCountDescending(e.counts, |e.counts|);
  }

  /** One decoded index in range decodes the dictionary entry. */
  lemma DecodeOne<V>(d: H.Decoder, dictionary: seq<V>, i: int32, d1: H.Decoder)
    requires IPR.Decode(d) == Success((i, d1)) && 0 <= i < |dictionary|
    ensures Decode(Decoder(d, dictionary)) == Success((dictionary[i], Decoder(d1, dictionary)))
  {
  }

  lemma LookupCons<V>(dictionary: seq<V>, ixs: seq<int32>)
    requires |ixs| > 0 && forall k | 0 <= k < |ixs| :: 0 <= ixs[k] < |dictionary|
    ensures Lookup(dictionary, ixs) == [dictionary[ixs[0]]] + Lookup(dictionary, ixs[1..])
  {
  }

  /** Looking up `n` decoded indices decodes `n` values. */
  lemma {:induction false} DecodeLookups<V>(d: H.Decoder, dictionary: seq<V>, n: nat, ixs: seq<int32>, d2: H.Decoder)
    requires DecodeN(IPR.Decode, d, n) == Success((ixs, d2))
    requires forall k | 0 <= k < |ixs| :: 0 <= ixs[k] < |dictionary|
    ensures DecodeN(Decode, Decoder(d, dictionary), n).Success?
    ensures DecodeN(Decode, Decoder(d, dictionary), n).value.0 == Lookup(dictionary, ixs)
    decreases n
  {
    if n > 0 {
      DecodeNUncons(IPR.Decode, d, n, ixs, d2);
      var first := IPR.Decode(d).value;
      var tail := ixs[1..];
      DecodeLookups(first.1, dictionary, n - 1, tail, d2);
      DecodeOne(d, dictionary, first.0, first.1);
      LookupCons(dictionary, ixs);
      DecodeNConsValues(Decode, Decoder(d, dictionary), n, dictionary[first.0], Decoder(first.1, dictionary),
                        Lookup(dictionary, tail));
    }
  }

  /** The indices of covered values are in the dictionary, and looking them
      up gives the values back. */
  lemma LookupIndices<V>(keys: seq<V>, vs: seq<V>)
    requires |keys| < TWO_31 && Covered(keys, vs)
    ensures forall k | 0 <= k < |vs| :: 0 <= IndicesOf(keys, vs)[k] < |keys|
    ensures Lookup(keys, IndicesOf(keys, vs)) == vs
  {
  }

  /** Decoding `n` indices and looking each up. */
  lemma DecodeWrittenIndices<V>(ixs: seq<int32>, dictionary: seq<V>)
    requires |ixs| < TWO_31 && forall k | 0 <= k < |ixs| :: 0 <= ixs[k] < |dictionary|
    ensures IPR.WriteTo(IPR.EncodeAll(ixs)).Success?
    ensures var r := NewDecoder(IPR.WriteTo(IPR.EncodeAll(ixs)).value, dictionary);
      && r.Success? && r.value.0 == |ixs| as int32
      && DecodeN(Decode, r.value.1, |ixs|).Success?
      && DecodeN(Decode, r.value.1, |ixs|).value.0 == Lookup(dictionary, ixs)
  {
    IPR.RoundTrip(ixs);
    var h := IPR.NewDecoder(IPR.WriteTo(IPR.EncodeAll(ixs)).value).value.1;
    var ds := DecodeN(IPR.Decode, h, |ixs|).value;
    DecodeLookups(h, dictionary, |ixs|, ixs, ds.1);
  }

  /** Decoding the written indices with the encoder's dictionary gives
      back the count and the encoded values, in order. */
  lemma RoundTrip<V>(vs: seq<V>)
    requires EncodeAll(vs).Success? && |vs| < TWO_31
    ensures WriteTo(EncodeAll(vs).value).Success?
    ensures var e := EncodeAll(vs).value;
      var r := NewDecoder(WriteTo(e).value, GetDictionary(e));
      && r.Success? && r.value.0 == |vs| as int32
      && DecodeN(Decode, r.value.1, |vs|).Success?
      && DecodeN(Decode, r.value.1, |vs|).value.0 == vs
  {
    var e := EncodeAll(vs).value;
    EncodeAllRepresents(vs);
    LookupIndices(e.keys, vs);
    DecodeWrittenIndices(IndicesOf(e.keys, vs), e.keys);
  }

  /** Encoding with a function is encoding the function's results. */
  lemma {:induction false} WithFnEncodesResults<V, W>(fn: V -> W, vs: seq<V>)
    ensures EncodeAllWithFn(fn, vs) == EncodeAll(seq(|vs|, k requires 0 <= k < |vs| => fn(vs[k])))
  {
    var ws := seq(|vs|, k requires 0 <= k < |vs| => fn(vs[k]));
    if |vs| > 0 {
      var front := vs[..|vs| - 1];
      WithFnEncodesResults(fn, front);
      var fws := seq(|front|, k requires 0 <= k < |front| => fn(front[k]));
      assert ws[..|ws| - 1] == fws;
      assert EncodeAll(ws) == (var e :- EncodeAll(fws); Encode(e, fn(vs[|vs| - 1])));
      assert EncodeAllWithFn(fn, vs) == (var e :- EncodeAll(fws); EncodeWithFn(e, fn, vs[|vs| - 1]));
    }
  }
}
