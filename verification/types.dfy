/** `Types`: the registry of column types and encodings. Primitive types are
    the negative codes -1 .. -7; logical (built-in and custom) types are
    indices into a table of entries, each naming a base type and the
    functions that convert a value to and from that base. Before use, every
    entry's chain of bases is flattened so that it names a primitive base
    directly, with the conversions composed. */
module Types {
  import opened Wrappers

  // ---------------------------------------------------------------------
  // Primitive types

  const BOOLEAN: int := -1
  const INT: int := -2
  const LONG: int := -3
  const FLOAT: int := -4
  const DOUBLE: int := -5
  const BYTE_ARRAY: int := -6
  const FIXED_LENGTH_BYTE_ARRAY: int := -7

  /** The number of primitive types. */
  const NUM_PRIMITIVES: nat := 7

  /** `isPrimitive`: every negative code is taken as primitive, even below
      `FIXED_LENGTH_BYTE_ARRAY`. */
  predicate IsPrimitive(t: int) {
    t < 0
  }

  /** `i`: the slot of a primitive type in the per-primitive tables. */
  function Slot(t: int): (k: int)
    ensures IsPrimitive(t) <==> k >= 0
    ensures t < 0 ==> (k < NUM_PRIMITIVES <==> FIXED_LENGTH_BYTE_ARRAY <= t)
  {
    -t - 1
  }

  /** The primitive type in slot `k`, the inverse of `Slot`. */
  function OfSlot(k: nat): (t: int)
    ensures IsPrimitive(t) && Slot(t) == k
  {
    -1 - k
  }

  const PRIMITIVE_SYMBOLS: seq<string> :=
    ["boolean", "int", "long", "float", "double", "byte-array", "fixed-length-byte-array"]

  // ---------------------------------------------------------------------
  // Encodings

  const PLAIN: int := 0
  const DICTIONARY: int := 1
  const FREQUENCY: int := 2
  const VLQ: int := 3
  const ZIG_ZAG: int := 4
  const PACKED_RUN_LENGTH: int := 5
  const DELTA: int := 6
  const INCREMENTAL: int := 7
  const DELTA_LENGTH: int := 8

  const ENCODING_SYMBOLS: seq<string> :=
    ["plain", "dictionary", "frequency", "vlq", "zig-zag", "packed-run-length", "delta",
     "incremental", "delta-length"]

  /** `validEncodings`, by primitive slot. */
  const VALID_ENCODINGS: seq<seq<int>> := [
    [PLAIN, DICTIONARY, FREQUENCY],
    [PLAIN, VLQ, ZIG_ZAG, PACKED_RUN_LENGTH, DELTA, DICTIONARY, FREQUENCY],
    [PLAIN, VLQ, ZIG_ZAG, DELTA, DICTIONARY, FREQUENCY],
    [PLAIN, DICTIONARY, FREQUENCY],
    [PLAIN, DICTIONARY, FREQUENCY],
    [PLAIN, INCREMENTAL, DELTA_LENGTH, DICTIONARY, FREQUENCY],
    [PLAIN, DICTIONARY, FREQUENCY]
  ]

  /** The position of `s` in `names`, if it is there. */
  function IndexOf(names: seq<string>, s: string): (r: Option<nat>)
    ensures r.Some? <==> s in names
    ensures r.Some? ==> r.value < |names| && names[r.value] == s
    ensures r.Some? ==> forall k | 0 <= k < r.value :: names[k] != s
  {
    if |names| == 0 then None
    else if names[0] == s then Some(0)
    else match IndexOf(names[1..], s)
      case None => None
      case Some(k) => Some(k + 1)
  }

  /** `getEncodingSymbol`: the name of an encoding, an array index. */
  function GetEncodingSymbol(e: int): (r: Outcome<string>)
    ensures r.Success? <==> 0 <= e < |ENCODING_SYMBOLS|
    ensures r.Failure? ==> r.error == IndexOutOfBounds
  {
    if 0 <= e < |ENCODING_SYMBOLS| then Success(ENCODING_SYMBOLS[e]) else Failure(IndexOutOfBounds)
  }

  /** `getEncoding(sym)`: the encoding of a name, or an error for an
      unknown name. */
  function GetEncoding(sym: string): (r: Outcome<int>)
    ensures r.Success? <==> sym in ENCODING_SYMBOLS
    ensures r.Failure? ==> r.error.IllegalArgument?
  {
    match IndexOf(ENCODING_SYMBOLS, sym)
    case None => Failure(IllegalArgument("Unknown encoding"))
    case Some(k) => Success(k)
  }

  /** The encoding names are pairwise different. */
  lemma EncodingSymbolsDistinct()
    ensures forall j, k | 0 <= j < k < |ENCODING_SYMBOLS| :: ENCODING_SYMBOLS[j] != ENCODING_SYMBOLS[k]
  {
  }

  /** Every encoding code's name maps back to that code. */
  lemma EncodingSymbolRoundTrip(e: int)
    requires 0 <= e < |ENCODING_SYMBOLS|
    ensures GetEncoding(GetEncodingSymbol(e).value) == Success(e)
  {
    EncodingSymbolsDistinct();
  }

  /** Every known encoding name is the name of its code. */
  lemma EncodingRoundTrip(sym: string)
    requires GetEncoding(sym).Success?
    ensures GetEncodingSymbol(GetEncoding(sym).value) == Success(sym)
  {
  }

  // ---------------------------------------------------------------------
  // Compressions

  const NONE: int := 0
  const DEFLATE: int := 1

  /** `getCompressionSymbol`: every code other than `NONE` is named
      "deflate". */
  function GetCompressionSymbol(c: int): (r: string)
    ensures r == "none" <==> c == NONE
    ensures r == "none" || r == "deflate"
  {
    if c == NONE then "none" else "deflate"
  }

  /** `getCompression`: the code of a compression name. */
  function GetCompression(sym: string): (r: Outcome<int>)
    ensures r.Success? <==> sym == "none" || sym == "deflate"
    ensures r.Success? ==> r.value == NONE || r.value == DEFLATE
    ensures r.Failure? ==> r.error.IllegalArgument?
  {
    if sym == "none" then Success(NONE)
    else if sym == "deflate" then Success(DEFLATE)
    else Failure(IllegalArgument("Unknown compression"))
  }

  /** Naming a compression code and reading the name back gives the code
      for the two known codes; any other code comes back as `DEFLATE`. */
  lemma CompressionSymbolRoundTrip(c: int)
    ensures GetCompression(GetCompressionSymbol(c)) == Success(if c == NONE then NONE else DEFLATE)
  {
  }

  /** Every known compression name is the name of its code. */
  lemma CompressionRoundTrip(sym: string)
    requires GetCompression(sym).Success?
    ensures GetCompressionSymbol(GetCompression(sym).value) == sym
  {
  }

  // ---------------------------------------------------------------------
  // Composition of conversion functions

  /** The mathematical composition `fs[0] ∘ fs[1] ∘ … ∘ fs[n-1]`: the last
      function is applied first. */
  function ApplyAll<V>(fs: seq<V -> V>, x: V): V {
    if |fs| == 0 then x else fs[0](ApplyAll(fs[1..], x))
  }

  /** The functions applied first to last, as the loop of `comp` for four or
      more functions does. */
  function ApplyInOrder<V>(fs: seq<V -> V>, x: V): V {
    if |fs| == 0 then x else ApplyInOrder(fs[1..], fs[0](x))
  }

  /** `Functions.comp` as written: no function for an empty list, the
      function itself for one, `f(g(x))` and `f(g(h(x)))` for two and three,
      and a loop applying the functions first to last for four or more. */
  function CompAsWritten<V>(fs: seq<V -> V>): (r: Option<V -> V>)
    ensures r.None? <==> |fs| == 0
  {
    if |fs| == 0 then None
    else if |fs| == 1 then Some(fs[0])
    else if |fs| == 2 then Some(x => fs[0](fs[1](x)))
    else if |fs| == 3 then Some(x => fs[0](fs[1](fs[2](x))))
    else Some(x => ApplyInOrder(fs, x))
  }

  /** The loop of the corrected `comp` for four or more functions: the
      first `i` functions applied from `fs[i-1]` down to `fs[0]`. */
  function ApplyFromLast<V>(fs: seq<V -> V>, i: nat, x: V): V
    requires i <= |fs|
  {
    if i == 0 then x else ApplyFromLast(fs, i - 1, fs[i - 1](x))
  }

  /** `Functions.comp` corrected: the overloads for up to three functions
      as written, and for four or more a loop that runs from the last
      function to the first, so that every arity applies the last function
      first. */
  function Comp<V>(fs: seq<V -> V>): (r: Option<V -> V>)
    ensures r.None? <==> |fs| == 0
  {
    if |fs| <= 3 then CompAsWritten(fs) else Some(x => ApplyFromLast(fs, |fs|, x))
  }

  /** An optional function applied to a value; a missing one leaves the
      value as it is. */
  function Apply<V>(f: Option<V -> V>, x: V): V {
    if f.Some? then f.value(x) else x
  }

  /** An optional function as a list of zero or one function. */
  function AsList<V>(f: Option<V -> V>): (r: seq<V -> V>)
    ensures |r| <= 1 && (|r| == 1 <==> f.Some?)
  {
    if f.Some? then [f.value] else []
  }

  /** Composing two lists composes their compositions. */
  lemma {:induction false} ApplyAllAppend<V>(a: seq<V -> V>, b: seq<V -> V>, x: V)
    ensures ApplyAll(a + b, x) == ApplyAll(a, ApplyAll(b, x))
  {
    if |a| > 0 {
      assert (a + b)[1..] == a[1..] + b;
      ApplyAllAppend(a[1..], b, x);
    } else {
      assert a + b == b;
    }
  }

  /** The corrected loop over the first `i` functions is their
      composition. */
  lemma {:induction false} ApplyFromLastIsPrefix<V>(fs: seq<V -> V>, i: nat, x: V)
    requires i <= |fs|
    ensures ApplyFromLast(fs, i, x) == ApplyAll(fs[..i], x)
  {
    if i > 0 {
      var f := fs[i - 1];
      ApplyFromLastIsPrefix(fs, i - 1, f(x));
      assert fs[..i] == fs[..i - 1] + [f];
      ApplyAllAppend(fs[..i - 1], [f], x);
      assert [f][1..] == [];
    }
  }

  /** The corrected `comp` of any number of functions is their
      composition, the last applied first. */
  lemma CompApplies<V>(fs: seq<V -> V>, x: V)
    ensures Apply(Comp(fs), x) == ApplyAll(fs, x)
  {
    if |fs| <= 3 {
      CompAsWrittenShort(fs, x);
    } else {
      ApplyFromLastIsPrefix(fs, |fs|, x);
      assert fs[..|fs|] == fs;
    }
  }

  /** A list of at most one function composes to that function. */
  lemma ApplyAsList<V>(f: Option<V -> V>, x: V)
    ensures ApplyAll(AsList(f), x) == Apply(f, x)
  {
    if f.Some? {
      assert AsList(f)[1..] == [];
    }
  }

  /** For up to three functions the written `comp` is the composition. */
  lemma CompAsWrittenShort<V>(fs: seq<V -> V>, x: V)
    requires |fs| <= 3
    ensures Apply(CompAsWritten(fs), x) == ApplyAll(fs, x)
  {
    if |fs| > 0 {
      ApplyAllStep(fs, x);
      if |fs| > 1 {
        ApplyAllStep(fs[1..], x);
        if |fs| > 2 {
          ApplyAllStep(fs[2..], x);
          assert fs[2..][1..] == [];
        } else {
          assert fs[1..][1..] == [];
        }
      } else {
        assert fs[1..] == [];
      }
    }
  }

  lemma ApplyAllStep<V>(fs: seq<V -> V>, x: V)
    requires |fs| > 0
    ensures ApplyAll(fs, x) == fs[0](ApplyAll(fs[1..], x))
  {
  }

  /** For four or more functions the written `comp` applies them in the
      opposite order: first `fs[0]`, last `fs[n-1]`. With the conversions
      of a custom type over three other custom types, flattening passes
      four functions, and the converted value is wrong. */
  lemma CompAsWrittenReversesLong()
    ensures var fs: seq<int -> int> := [x => x + 1, x => 2 * x, x => x, x => x];
      && Apply(CompAsWritten(fs), 0) == 2
      && Apply(Comp(fs), 0) == 1
  {
    var fs: seq<int -> int> := [x => x + 1, x => 2 * x, x => x, x => x];
    assert ApplyInOrder(fs, 0) == ApplyInOrder(fs[1..], 1);
    assert ApplyInOrder(fs[1..], 1) == ApplyInOrder(fs[2..], 2);
    assert ApplyInOrder(fs[2..], 2) == ApplyInOrder(fs[3..], 2);
    assert ApplyInOrder(fs[3..], 2) == ApplyInOrder(fs[4..], 2);
    assert ApplyAll(fs[4..], 0) == 0;
    assert ApplyAll(fs[3..], 0) == 0;
    assert ApplyAll(fs[2..], 0) == 0;
    assert ApplyAll(fs[1..], 0) == 0;
    assert ApplyAll(fs, 0) == 1;
    CompApplies(fs, 0);
  }

  // ---------------------------------------------------------------------
  // Logical types

  /** `LogicalType`: a name, the type a value is stored as, and the
      functions that coerce a value, and convert it to and from the base. */
  datatype LogicalType<!V> = LogicalType(
    sym: string,
    baseType: int,
    coercionFn: Option<V -> V>,
    toBaseTypeFn: Option<V -> V>,
    fromBaseTypeFn: Option<V -> V>)

  /** The table of logical types, indexed by type; `None` is an unused
      index. */
  type Table<!V> = seq<Option<LogicalType<V>>>

  /** The end of a flattened chain: the primitive base, and the conversion
      functions gathered on the way, each in composition order. */
  datatype Chain<!V> = Chain(base: int, toFns: seq<V -> V>, fromFns: seq<V -> V>)

  /** Indices of the table. */
  predicate InTable<V>(lts: Table<V>, s: set<int>) {
    forall v | v in s :: 0 <= v < |lts|
  }

  /** A set of indices below `n` has at most `n` elements. */
  lemma {:induction false} BoundedSetSize(s: set<int>, n: nat)
    requires forall v | v in s :: 0 <= v < n
    ensures |s| <= n
  {
    if n > 0 {
      var s' := s - {n - 1};
      BoundedSetSize(s', n - 1);
    } else {
      assert forall v :: v !in s;
      assert s == {};
    }
  }

  /** The number of types not yet visited. */
  function Remaining<V>(lts: Table<V>, visited: set<int>): (n: nat)
    requires InTable(lts, visited)
    ensures n + |visited| == |lts|
  {
    BoundedSetSize(visited, |lts|);
    |lts| - |visited|
  }

  /** The loop of `flattenLogicalType`: follow the chain of bases from
      `base`, with the types already `visited`, prepending each
      to-base-type function and appending each from-base-type function,
      until a primitive base. A base seen before is a loop; a base past the
      table's end or without an entry is an error. */
  function FlattenFrom<V>(lts: Table<V>, base: int, visited: set<int>, to: seq<V -> V>, from: seq<V -> V>)
    : (r: Outcome<Chain<V>>)
    requires InTable(lts, visited)
    ensures r.Success? ==> IsPrimitive(r.value.base)
    ensures r.Failure? ==> r.error.IllegalArgument? || r.error == IndexOutOfBounds || r.error == NullPointer
    decreases Remaining(lts, visited)
  {
    if IsPrimitive(base) then Success(Chain(base, to, from))
    else if base >= |lts| then Failure(IndexOutOfBounds)
    else if base in visited then Failure(IllegalArgument("Loop detected for custom-type"))
    else if lts[base].None? then Failure(NullPointer)
    else
      var lt := lts[base].value;
      BoundedSetSize(visited + {base}, |lts|);
      FlattenFrom(lts, lt.baseType, visited + {base}, AsList(lt.toBaseTypeFn) + to, from + AsList(lt.fromBaseTypeFn))
  }

  /** The chain `flattenLogicalType` follows from the entry of `t`: the
      to-base-type functions gathered with `addFirst`, the deepest first,
      and the from-base-type functions with `addLast`. */
  function ChainOf<V>(lts: Table<V>, t: int): Outcome<Chain<V>>
    requires 0 <= t < |lts| && lts[t].Some?
  {
    var lt := lts[t].value;
    FlattenFrom(lts, lt.baseType, {t}, AsList(lt.toBaseTypeFn), AsList(lt.fromBaseTypeFn))
  }

  /** `flattenLogicalType`: an entry that is missing or already has a
      primitive base stays; any other is replaced by one with the chain's
      primitive base and the gathered conversions passed through
      `Functions.comp` as written, keeping its name and coercion. */
  function FlattenLogicalType<V>(lts: Table<V>, t: int): (r: Outcome<Table<V>>)
    requires 0 <= t < |lts|
    ensures r.Success? ==> |r.value| == |lts|
    ensures r.Success? ==> forall j | 0 <= j < |lts| && j != t :: r.value[j] == lts[j]
    ensures r.Success? ==> (r.value[t].Some? <==> lts[t].Some?)
    ensures r.Success? && lts[t].Some? ==>
      && IsPrimitive(r.value[t].value.baseType)
      && r.value[t].value.sym == lts[t].value.sym
      && r.value[t].value.coercionFn == lts[t].value.coercionFn
    ensures lts[t].None? || IsPrimitive(lts[t].value.baseType) ==> r == Success(lts)
  {
    if lts[t].None? then Success(lts)
    else
      var lt := lts[t].value;
      if IsPrimitive(lt.baseType) then Success(lts)
      else
        var c :- ChainOf(lts, t);
        Success(lts[t := Some(LogicalType(lt.sym, c.base, lt.coercionFn, CompAsWritten(c.toFns), CompAsWritten(c.fromFns)))])
  }

  /** The reference chain: the entry of `t` if it is a logical type with an
      entry. */
  predicate HasEntry<V>(lts: Table<V>, t: int) {
    0 <= t < |lts| && lts[t].Some?
  }

  /** The base a chain of `fuel` steps from `t` ends on. */
  function BaseOf<V>(lts: Table<V>, t: int, fuel: nat): int
    decreases fuel
  {
    if fuel == 0 || !HasEntry(lts, t) then t else BaseOf(lts, lts[t].value.baseType, fuel - 1)
  }

  /** Converting a value of type `t` to its base one level at a time: the
      type's own to-base-type function first, then its base's, and so on. */
  function StepTo<V>(lts: Table<V>, t: int, x: V, fuel: nat): V
    decreases fuel
  {
    if fuel == 0 || !HasEntry(lts, t) then x
    else StepTo(lts, lts[t].value.baseType, Apply(lts[t].value.toBaseTypeFn, x), fuel - 1)
  }

  /** Converting a value of the base up to type `t` one level at a time:
      the deepest from-base-type function first, the type's own last. */
  function StepFrom<V>(lts: Table<V>, t: int, x: V, fuel: nat): V
    decreases fuel
  {
    if fuel == 0 || !HasEntry(lts, t) then x
    else Apply(lts[t].value.fromBaseTypeFn, StepFrom(lts, lts[t].value.baseType, x, fuel - 1))
  }

  /** A chain that follows existing entries from `b` and comes to a type in
      `visited` within `fuel` steps. */
  predicate Hits<V>(lts: Table<V>, b: int, visited: set<int>, fuel: nat)
    decreases fuel
  {
    0 <= b < |lts| && (b in visited || (fuel > 0 && lts[b].Some? && Hits(lts, lts[b].value.baseType, visited, fuel - 1)))
  }

  /** The chain that flattening follows ends on the reference chain's
      base, and the gathered functions are the level-by-level
      conversions. */
  lemma {:induction false} FlattenFromFollowsChain<V>(lts: Table<V>, base: int, visited: set<int>,
                                                     to: seq<V -> V>, from: seq<V -> V>, x: V)
    requires InTable(lts, visited)
    requires FlattenFrom(lts, base, visited, to, from).Success?
    ensures var c := FlattenFrom(lts, base, visited, to, from).value;
      && c.base == BaseOf(lts, base, Remaining(lts, visited))
      && ApplyAll(c.toFns, x) == StepTo(lts, base, ApplyAll(to, x), Remaining(lts, visited))
      && ApplyAll(c.fromFns, x) == ApplyAll(from, StepFrom(lts, base, x, Remaining(lts, visited)))
    decreases Remaining(lts, visited)
  {
    if !IsPrimitive(base) {
      var lt := lts[base].value;
      BoundedSetSize(visited + {base}, |lts|);
      BoundedSetSize(visited, |lts|);
      var to' := AsList(lt.toBaseTypeFn) + to;
      var from' := from + AsList(lt.fromBaseTypeFn);
      var y := StepFrom(lts, lt.baseType, x, Remaining(lts, visited + {base}));
      FlattenFromFollowsChain(lts, lt.baseType, visited + {base}, to', from', x);
      ApplyAllAppend(AsList(lt.toBaseTypeFn), to, x);
      ApplyAsList(lt.toBaseTypeFn, ApplyAll(to, x));
      ApplyAllAppend(from, AsList(lt.fromBaseTypeFn), y);
      ApplyAsList(lt.fromBaseTypeFn, y);
    }
  }

  /** The chain flattening follows ends on the base the type's chain of
      bases ends on. The gathered functions, composed, do what converting
      one level at a time does, and so does the corrected `comp` of them. */
  lemma ChainConverts<V>(lts: Table<V>, t: int, x: V)
    requires 0 <= t < |lts| && lts[t].Some? && ChainOf(lts, t).Success?
    ensures var c := ChainOf(lts, t).value;
      && c.base == BaseOf(lts, t, |lts|)
      && ApplyAll(c.toFns, x) == StepTo(lts, t, x, |lts|)
      && ApplyAll(c.fromFns, x) == StepFrom(lts, t, x, |lts|)
      && Apply(Comp(c.toFns), x) == StepTo(lts, t, x, |lts|)
      && Apply(Comp(c.fromFns), x) == StepFrom(lts, t, x, |lts|)
  {
    var lt := lts[t].value;
    var c := ChainOf(lts, t).value;
    FlattenFromFollowsChain(lts, lt.baseType, {t}, AsList(lt.toBaseTypeFn), AsList(lt.fromBaseTypeFn), x);
    ApplyAsList(lt.toBaseTypeFn, x);
    ApplyAsList(lt.fromBaseTypeFn, StepFrom(lts, lt.baseType, x, |lts| - 1));
    CompApplies(c.toFns, x);
    CompApplies(c.fromFns, x);
  }

  /** Flattening gives a type the base its chain of bases ends on, and
      conversions that do what converting one level at a time does when
      at most three functions were gathered, as `comp` is written;
      `FlattenLongChainAsWritten` shows four that do not. */
  lemma FlattenLogicalTypeConverts<V>(lts: Table<V>, t: int, x: V)
    requires 0 <= t < |lts| && lts[t].Some?
    requires FlattenLogicalType(lts, t).Success?
    ensures ChainOf(lts, t).Success?
    ensures var c := ChainOf(lts, t).value;
      var lt := FlattenLogicalType(lts, t).value[t].value;
      && lt.baseType == BaseOf(lts, t, |lts|)
      && (|c.toFns| <= 3 ==> Apply(lt.toBaseTypeFn, x) == StepTo(lts, t, x, |lts|))
      && (|c.fromFns| <= 3 ==> Apply(lt.fromBaseTypeFn, x) == StepFrom(lts, t, x, |lts|))
  {
    ChainConverts(lts, t, x);
    var c := ChainOf(lts, t).value;
    if !IsPrimitive(lts[t].value.baseType) {
      if |c.toFns| <= 3 {
        CompAsWrittenShort(c.toFns, x);
      }
      if |c.fromFns| <= 3 {
        CompAsWrittenShort(c.fromFns, x);
      }
    }
  }

  /** A custom type over three other custom types, each with a
      to-base-type function: add one, double, and two identities. */
  function LongChain(): (lts: Table<int>)
    ensures |lts| == 4
  {
    [Some(LogicalType("t", 1, None, Some(x => x + 1), None)),
     Some(LogicalType("b1", 2, None, Some(x => 2 * x), None)),
     Some(LogicalType("b2", 3, None, Some(x => x), None)),
     Some(LogicalType("b3", -1, None, Some(x => x), None))]
  }

  /** One step of the flattening loop over an entry with a to-base-type
      function and no from-base-type function. */
  lemma FlattenStep<V>(lts: Table<V>, b: int, visited: set<int>, to: seq<V -> V>, next: int, f: V -> V)
    requires InTable(lts, visited) && 0 <= b < |lts| && b !in visited && lts[b].Some?
    requires lts[b].value.baseType == next && lts[b].value.toBaseTypeFn == Some(f)
    requires lts[b].value.fromBaseTypeFn.None?
    ensures InTable(lts, visited + {b})
    ensures FlattenFrom(lts, b, visited, to, []) == FlattenFrom(lts, next, visited + {b}, [f] + to, [])
  {
    assert AsList(lts[b].value.fromBaseTypeFn) == [];
    assert [] + AsList(lts[b].value.fromBaseTypeFn) == [];
  }

  /** The to-base-type functions of the long chain in the order
      `addFirst` leaves them: the deepest first. */
  function LongChainGathered(): seq<int -> int> {
    var lts := LongChain();
    [lts[3].value.toBaseTypeFn.value, lts[2].value.toBaseTypeFn.value,
     lts[1].value.toBaseTypeFn.value, lts[0].value.toBaseTypeFn.value]
  }

  /** Flattening the long chain reaches the primitive base with the four
      to-base-type functions gathered deepest first. */
  lemma LongChainGathers()
    ensures ChainOf(LongChain(), 0) == Success(Chain(-1, LongChainGathered(), []))
  {
    var lts := LongChain();
    var f0, f1 := lts[0].value.toBaseTypeFn.value, lts[1].value.toBaseTypeFn.value;
    var f2, f3 := lts[2].value.toBaseTypeFn.value, lts[3].value.toBaseTypeFn.value;
    assert AsList(lts[0].value.toBaseTypeFn) == [f0] && AsList(lts[0].value.fromBaseTypeFn) == [];
    FlattenStep(lts, 1, {0}, [f0], 2, f1);
    assert {0} + {1} == {0, 1} && [f1] + [f0] == [f1, f0];
    FlattenStep(lts, 2, {0, 1}, [f1, f0], 3, f2);
    assert {0, 1} + {2} == {0, 1, 2} && [f2] + [f1, f0] == [f2, f1, f0];
    FlattenStep(lts, 3, {0, 1, 2}, [f2, f1, f0], -1, f3);
    assert [f3] + [f2, f1, f0] == LongChainGathered();
  }

  /** Flattening the long chain gathers four to-base-type functions, and
      `comp` as written applies them deepest first: the flattened
      conversion of 0 is 1, where adding one and then doubling gives 2. */
  lemma FlattenLongChainAsWritten()
    ensures FlattenLogicalType(LongChain(), 0).Success?
    ensures |ChainOf(LongChain(), 0).value.toFns| == 4
    ensures Apply(FlattenLogicalType(LongChain(), 0).value[0].value.toBaseTypeFn, 0) == 1
    ensures StepTo(LongChain(), 0, 0, |LongChain()|) == 2
  {
    LongChainGathers();
    var fs := LongChainGathered();
    assert ApplyInOrder(fs, 0) == ApplyInOrder(fs[1..], 0);
    assert ApplyInOrder(fs[1..], 0) == ApplyInOrder(fs[2..], 0);
    assert ApplyInOrder(fs[2..], 0) == ApplyInOrder(fs[3..], 0);
    assert ApplyInOrder(fs[3..], 0) == ApplyInOrder(fs[4..], 1);
  }

  /** A chain that comes back to a visited type is reported as a loop. */
  lemma {:induction false} FlattenFromDetectsLoop<V>(lts: Table<V>, base: int, visited: set<int>,
                                                    to: seq<V -> V>, from: seq<V -> V>, fuel: nat)
    requires InTable(lts, visited) && Hits(lts, base, visited, fuel)
    ensures FlattenFrom(lts, base, visited, to, from) == Failure(IllegalArgument("Loop detected for custom-type"))
    decreases fuel
  {
    if base !in visited {
      var lt := lts[base].value;
      HitsMonotone(lts, lt.baseType, visited, visited + {base}, fuel - 1);
      FlattenFromDetectsLoop(lts, lt.baseType, visited + {base}, AsList(lt.toBaseTypeFn) + to,
                             from + AsList(lt.fromBaseTypeFn), fuel - 1);
    }
  }

  lemma {:induction false} HitsMonotone<V>(lts: Table<V>, b: int, visited: set<int>, more: set<int>, fuel: nat)
    requires visited <= more && Hits(lts, b, visited, fuel)
    ensures Hits(lts, b, more, fuel)
    decreases fuel
  {
    if b !in visited {
      HitsMonotone(lts, lts[b].value.baseType, visited, more, fuel - 1);
    }
  }

  /** A custom type whose chain of bases leads back to itself is rejected
      as a loop. */
  lemma FlattenRejectsLoop<V>(lts: Table<V>, t: int, fuel: nat)
    requires 0 <= t < |lts| && lts[t].Some? && !IsPrimitive(lts[t].value.baseType)
    requires Hits(lts, lts[t].value.baseType, {t}, fuel)
    ensures FlattenLogicalType(lts, t).Failure?
    ensures FlattenLogicalType(lts, t).error == IllegalArgument("Loop detected for custom-type")
  {
    var lt := lts[t].value;
    FlattenFromDetectsLoop(lts, lt.baseType, {t}, AsList(lt.toBaseTypeFn), AsList(lt.fromBaseTypeFn), fuel);
  }

  /** `flattenLogicalTypes`: flatten the entries from index `i` on, in
      increasing order, each seeing the entries flattened before it. */
  function FlattenLogicalTypesFrom<V>(lts: Table<V>, i: nat): (r: Outcome<Table<V>>)
    requires i <= |lts|
    ensures r.Success? ==> |r.value| == |lts|
    ensures r.Success? ==> forall j | 0 <= j < i :: r.value[j] == lts[j]
    ensures r.Success? ==> forall j | i <= j < |lts| ::
      && (r.value[j].Some? <==> lts[j].Some?)
      && (lts[j].Some? ==> IsPrimitive(r.value[j].value.baseType))
      && (lts[j].Some? ==> r.value[j].value.sym == lts[j].value.sym)
      && (lts[j].Some? ==> r.value[j].value.coercionFn == lts[j].value.coercionFn)
    decreases |lts| - i
  {
    if i == |lts| then Success(lts)
    else
      var next :- FlattenLogicalType(lts, i);
      FlattenLogicalTypesFrom(next, i + 1)
  }

  /** After flattening, every entry of the table names a primitive base,
      with its name and coercion unchanged. */
  function FlattenLogicalTypes<V>(lts: Table<V>): (r: Outcome<Table<V>>)
    ensures r.Success? ==> |r.value| == |lts|
    ensures r.Success? ==> forall j | 0 <= j < |lts| ::
      && (r.value[j].Some? <==> lts[j].Some?)
      && (lts[j].Some? ==> IsPrimitive(r.value[j].value.baseType))
      && (lts[j].Some? ==> r.value[j].value.sym == lts[j].value.sym)
      && (lts[j].Some? ==> r.value[j].value.coercionFn == lts[j].value.coercionFn)
  {
    FlattenLogicalTypesFrom(lts, 0)
  }

  /** A flattened table: every entry names a primitive base. */
  predicate Flattened<V>(lts: Table<V>) {
    forall j | 0 <= j < |lts| && lts[j].Some? :: IsPrimitive(lts[j].value.baseType)
  }

  /** Flattening a flattened table changes nothing. */
  lemma {:induction false} FlattenFlattenedFrom<V>(lts: Table<V>, i: nat)
    requires i <= |lts| && Flattened(lts)
    ensures FlattenLogicalTypesFrom(lts, i) == Success(lts)
    decreases |lts| - i
  {
    if i < |lts| {
      assert FlattenLogicalType(lts, i) == Success(lts);
      FlattenFlattenedFrom(lts, i + 1);
    }
  }

  /** Flattening is idempotent. */
  lemma FlattenIdempotent<V>(lts: Table<V>)
    requires FlattenLogicalTypes(lts).Success?
    ensures Flattened(FlattenLogicalTypes(lts).value)
    ensures FlattenLogicalTypes(FlattenLogicalTypes(lts).value) == FlattenLogicalTypes(lts)
  {
    FlattenFlattenedFrom(FlattenLogicalTypes(lts).value, 0);
  }

  // ---------------------------------------------------------------------
  // Lookups

  /** `getTypeSymbol`: the name of a primitive type from its slot, of a
      logical type from its entry. */
  function GetTypeSymbol<V>(lts: Table<V>, t: int): (r: Outcome<string>)
    ensures IsPrimitive(t) ==> (r.Success? <==> Slot(t) < NUM_PRIMITIVES)
    ensures !IsPrimitive(t) ==> (r.Success? <==> HasEntry(lts, t))
    ensures !IsPrimitive(t) && r.Success? ==> r.value == lts[t].value.sym
  {
    if IsPrimitive(t) then
      if Slot(t) < NUM_PRIMITIVES then Success(PRIMITIVE_SYMBOLS[Slot(t)]) else Failure(IndexOutOfBounds)
    else if t >= |lts| then Failure(IndexOutOfBounds)
    else if lts[t].None? then Failure(NullPointer)
    else Success(lts[t].value.sym)
  }

  /** `getType` through `tryGetType`: a primitive name first, then the map
      of logical type names. */
  function GetType(logicalTypes: map<string, int>, sym: string): (r: Outcome<int>)
    ensures r.Success? <==> sym in PRIMITIVE_SYMBOLS || sym in logicalTypes
    ensures sym in PRIMITIVE_SYMBOLS ==> r.Success? && IsPrimitive(r.value)
    ensures sym !in PRIMITIVE_SYMBOLS && sym in logicalTypes ==> r == Success(logicalTypes[sym])
    ensures r.Failure? ==> r.error.IllegalArgument?
  {
    match IndexOf(PRIMITIVE_SYMBOLS, sym)
    case Some(k) => Success(OfSlot(k))
    case None =>
      if sym in logicalTypes then Success(logicalTypes[sym]) else Failure(IllegalArgument("Unknown type"))
  }

  /** The primitive names are pairwise different. */
  lemma PrimitiveSymbolsDistinct()
    ensures forall j, k | 0 <= j < k < |PRIMITIVE_SYMBOLS| :: PRIMITIVE_SYMBOLS[j] != PRIMITIVE_SYMBOLS[k]
  {
  }

  /** The name of every primitive type maps back to that type, whatever the
      logical names are. */
  lemma PrimitiveTypeRoundTrip<V>(logicalTypes: map<string, int>, lts: Table<V>, t: int)
    requires FIXED_LENGTH_BYTE_ARRAY <= t <= BOOLEAN
    ensures GetTypeSymbol(lts, t).Success?
    ensures GetType(logicalTypes, GetTypeSymbol(lts, t).value) == Success(t)
  {
    PrimitiveSymbolsDistinct();
  }

  /** The name of a logical type maps back to it when the name map records
      it and no primitive has the same name. */
  lemma LogicalTypeRoundTrip<V>(logicalTypes: map<string, int>, lts: Table<V>, t: int)
    requires HasEntry(lts, t)
    requires lts[t].value.sym in logicalTypes && logicalTypes[lts[t].value.sym] == t
    requires lts[t].value.sym !in PRIMITIVE_SYMBOLS
    ensures GetType(logicalTypes, GetTypeSymbol(lts, t).value) == Success(t)
  {
  }

  /** `listEncodingsForType`: a primitive type's encodings by its slot; a
      logical type's are those of its base, which is expected to be
      primitive. */
  function ListEncodingsForType<V>(lts: Table<V>, t: int): (r: Outcome<seq<int>>)
    ensures IsPrimitive(t) ==> (r.Success? <==> Slot(t) < NUM_PRIMITIVES)
    ensures r.Success? ==> PLAIN in r.value && DICTIONARY in r.value && FREQUENCY in r.value
    ensures !IsPrimitive(t) && r.Success? ==> HasEntry(lts, t) && IsPrimitive(lts[t].value.baseType)
  {
    if IsPrimitive(t) then
      if Slot(t) < NUM_PRIMITIVES then Success(VALID_ENCODINGS[Slot(t)]) else Failure(IndexOutOfBounds)
    else if t >= |lts| then Failure(IndexOutOfBounds)
    else if lts[t].None? then Failure(NullPointer)
    else
      var b := lts[t].value.baseType;
      if 0 <= Slot(b) < NUM_PRIMITIVES then Success(VALID_ENCODINGS[Slot(b)]) else Failure(IndexOutOfBounds)
  }

  /** A logical type accepts exactly the encodings of its primitive base. */
  lemma LogicalTypeEncodings<V>(lts: Table<V>, t: int)
    requires HasEntry(lts, t) && IsPrimitive(lts[t].value.baseType)
    ensures ListEncodingsForType(lts, t) == ListEncodingsForType(lts, lts[t].value.baseType)
  {
  }

  /** Only `INT` is packed-run-length encoded, only `INT` and `LONG` take
      the integer encodings, and only `BYTE_ARRAY` the incremental and
      delta-length ones. */
  lemma EncodingsByType(t: int)
    requires FIXED_LENGTH_BYTE_ARRAY <= t <= BOOLEAN
    ensures var es := VALID_ENCODINGS[Slot(t)];
      && (PACKED_RUN_LENGTH in es <==> t == INT)
      && (VLQ in es <==> t == INT || t == LONG)
      && (ZIG_ZAG in es <==> t == INT || t == LONG)
      && (DELTA in es <==> t == INT || t == LONG)
      && (INCREMENTAL in es <==> t == BYTE_ARRAY)
      && (DELTA_LENGTH in es <==> t == BYTE_ARRAY)
  {
  }

  /** `getEncoding(type, sym)`: the encoding of the name, if the type
      accepts it. */
  function GetEncodingForType<V>(lts: Table<V>, t: int, sym: string): (r: Outcome<int>)
    ensures r.Success? <==>
      && GetEncoding(sym).Success?
      && ListEncodingsForType(lts, t).Success?
      && GetEncoding(sym).value in ListEncodingsForType(lts, t).value
    ensures r.Success? ==> r == GetEncoding(sym)
    ensures GetEncoding(sym).Success? && ListEncodingsForType(lts, t).Success? && r.Failure? ==>
      r.error.IllegalArgument?
  {
    var e :- GetEncoding(sym);
    var es :- ListEncodingsForType(lts, t);
    if e in es then Success(e) else Failure(IllegalArgument("Unsupported encoding"))
  }

  // ---------------------------------------------------------------------
  // Custom type ids

  /** The first id given to a custom type; 0 .. 9 are the built-in logical
      types. */
  const FIRST_CUSTOM_TYPE: int := 10

  /** `Integer.MIN_VALUE`. */
  const MIN_INT: int := -0x8000_0000

  /** `getMaxCustomType`: the largest id of the known custom types, or
      `Integer.MIN_VALUE` when there are none. */
  function MaxCustomType(ids: seq<int>): (r: int)
    ensures forall k | 0 <= k < |ids| :: ids[k] <= r
    ensures |ids| == 0 ==> r == MIN_INT
    ensures |ids| > 0 ==> r in ids
  {
    if |ids| == 0 then MIN_INT
    else
      var rest := MaxCustomType(ids[1..]);
      if |ids| == 1 || ids[0] > rest then ids[0] else rest
  }

  /** A key of the custom-types configuration: a symbol, or anything
      else. */
  datatype ConfKey = SymbolKey(name: string) | OtherKey

  /** The names among the configuration's keys. */
  function Names(keys: seq<ConfKey>): (r: set<string>)
    ensures forall k | 0 <= k < |keys| && keys[k].SymbolKey? :: keys[k].name in r
    ensures forall n | n in r :: exists k | 0 <= k < |keys| :: keys[k] == SymbolKey(n)
  {
    if |keys| == 0 then {}
    else
      var rest := Names(keys[1..]);
      assert forall n | n in rest :: exists k | 0 <= k < |keys[1..]| :: keys[1..][k] == SymbolKey(n);
      if keys[0].SymbolKey? then {keys[0].name} + rest else rest
  }

  /** The loop of `fillCustomTypesConfSymbols` from `next` on: every symbol
      key not yet named gets the next id; one that is already named keeps
      its id; a key that is not a symbol is an error. */
  function AssignIds(names: map<string, int>, keys: seq<ConfKey>, next: int): (r: Outcome<map<string, int>>)
    ensures r.Success? <==> forall k | 0 <= k < |keys| :: keys[k].SymbolKey?
    ensures r.Failure? ==> r.error.IllegalArgument?
    ensures r.Success? ==> r.value.Keys == names.Keys + Names(keys)
    ensures r.Success? ==> forall n | n in names :: r.value[n] == names[n]
    ensures r.Success? && |keys| > 0 && keys[0].name !in names ==> r.value[keys[0].name] == next
    decreases |keys|
  {
    if |keys| == 0 then Success(names)
    else
      match keys[0]
      case OtherKey => Failure(IllegalArgument("Custom-type is not a symbol"))
      case SymbolKey(n) =>
        if n in names then AssignIds(names, keys[1..], next)
        else AssignIds(names[n := next], keys[1..], next + 1)
  }

  /** The ids given out lie in `next .. next + |keys| - 1`. */
  lemma {:induction false} AssignIdsRange(names: map<string, int>, keys: seq<ConfKey>, next: int)
    requires AssignIds(names, keys, next).Success?
    ensures var r := AssignIds(names, keys, next).value;
      forall n | n in r && n !in names :: next <= r[n] < next + |keys|
    decreases |keys|
  {
    if |keys| > 0 {
      var n := keys[0].name;
      if n in names {
        AssignIdsRange(names, keys[1..], next);
      } else {
        var names1 := names[n := next];
        var r := AssignIds(names, keys, next).value;
        assert r == AssignIds(names1, keys[1..], next + 1).value;
        AssignIdsRange(names1, keys[1..], next + 1);
        forall o | o in r && o !in names
          ensures next <= r[o] < next + |keys|
        {
          if o != n {
            assert o !in names1;
          }
        }
      }
    }
  }

  /** No two new names share an id. */
  lemma {:induction false} AssignIdsInjective(names: map<string, int>, keys: seq<ConfKey>, next: int)
    requires AssignIds(names, keys, next).Success?
    ensures var r := AssignIds(names, keys, next).value;
      forall n, o | n in r && n !in names && o in r && o !in names && n != o :: r[n] != r[o]
    decreases |keys|
  {
    if |keys| > 0 {
      var n := keys[0].name;
      if n in names {
        AssignIdsInjective(names, keys[1..], next);
      } else {
        var names1 := names[n := next];
        var r := AssignIds(names, keys, next).value;
        assert r == AssignIds(names1, keys[1..], next + 1).value;
        AssignIdsInjective(names1, keys[1..], next + 1);
        AssignIdsRange(names1, keys[1..], next + 1);
        assert r[n] == next;
        forall a, b | a in r && a !in names && b in r && b !in names && a != b
          ensures r[a] != r[b]
        {
          if a == n {
            assert b !in names1;
          } else if b == n {
            assert a !in names1;
          } else {
            assert a !in names1 && b !in names1;
          }
        }
      }
    }
  }

  /** The ids given out lie in `next .. next + |keys| - 1`, and no two
      new names share one. */
  lemma AssignIdsFresh(names: map<string, int>, keys: seq<ConfKey>, next: int)
    requires AssignIds(names, keys, next).Success?
    ensures var r := AssignIds(names, keys, next).value;
      && (forall n | n in r && n !in names :: next <= r[n] < next + |keys|)
      && (forall n, o | n in r && n !in names && o in r && o !in names && n != o :: r[n] != r[o])
  {
    AssignIdsRange(names, keys, next);
    AssignIdsInjective(names, keys, next);
  }

  /** The first id for the configured custom types: after the built-in
      types, and after every known custom type. */
  function FirstId(customTypeIds: seq<int>): (start: int)
    ensures FIRST_CUSTOM_TYPE <= start
    ensures forall k | 0 <= k < |customTypeIds| :: customTypeIds[k] < start
    ensures start == FIRST_CUSTOM_TYPE || start - 1 in customTypeIds
  {
    var m := MaxCustomType(customTypeIds);
    if FIRST_CUSTOM_TYPE > m + 1 then FIRST_CUSTOM_TYPE else m + 1
  }

  /** `fillCustomTypesConfSymbols`: every configured custom type not yet
      named gets an id from `FirstId` on, each a different one. */
  function FillCustomTypesConfSymbols(names: map<string, int>, customTypeIds: seq<int>, keys: seq<ConfKey>)
    : (r: Outcome<map<string, int>>)
    ensures r.Success? <==> forall k | 0 <= k < |keys| :: keys[k].SymbolKey?
    ensures r.Success? ==> r.value.Keys == names.Keys + Names(keys)
    ensures r.Success? ==> forall n | n in names :: r.value[n] == names[n]
    ensures r.Success? ==> forall n | n in r.value && n !in names ::
      && FIRST_CUSTOM_TYPE <= r.value[n]
      && (forall k | 0 <= k < |customTypeIds| :: customTypeIds[k] < r.value[n])
  {
    var r := AssignIds(names, keys, FirstId(customTypeIds));
    if r.Success? then AssignIdsFresh(names, keys, FirstId(customTypeIds)); r else r
  }

  /** When the names known so far have the built-in ids or the ids of
      known custom types, no id is used twice after the configured custom
      types are named. */
  lemma CustomTypeIdsUnique(names: map<string, int>, customTypeIds: seq<int>, keys: seq<ConfKey>)
    requires FillCustomTypesConfSymbols(names, customTypeIds, keys).Success?
    requires forall n | n in names :: names[n] < FIRST_CUSTOM_TYPE || names[n] in customTypeIds
    ensures var r := FillCustomTypesConfSymbols(names, customTypeIds, keys).value;
      forall n, o | n in r && o in r && n != o && n !in names :: r[n] != r[o]
  {
    AssignIdsFresh(names, keys, FirstId(customTypeIds));
  }
}
