/** `Options`: the checks that turn the user's option maps (Clojure maps
    of keywords to values) into reader, read and writer options, and the
    builder that adds the sample, indexing and transducer functions of a
    read in a fixed order. */
module Options {
  import opened Wrappers
  import opened Words
  import opened Seqs

  /** The Clojure values an option can hold. `Function` is a function
      object; keywords, symbols, vectors and maps are also functions in
      Clojure. */
  datatype Value =
    | Nil
    | Integer(n: int)
    | Decimal(r: real)
    | Boolean(b: bool)
    | Text(s: string)
    | Keyword(name: string)
    | Symbol(name: string)
    | Function(id: nat)
    | Vector(items: seq<Value>)
    | Map(entries: seq<(Value, Value)>)

  /** A Clojure map as its sequence of entries, in iteration order. */
  type Conf = seq<(Value, Value)>

  const RECORD_GROUP_LENGTH: Value := Keyword("record-group-length")
  const DATA_PAGE_LENGTH: Value := Keyword("data-page-length")
  const OPTIMIZE_COLUMNS: Value := Keyword("optimize-columns?")
  const COMPRESSION_THRESHOLDS: Value := Keyword("compression-thresholds")
  const INVALID_INPUT_HANDLER: Value := Keyword("invalid-input-handler")
  const CUSTOM_TYPES: Value := Keyword("custom-types")
  const QUERY: Value := Keyword("query")
  const SUB_SCHEMA_IN: Value := Keyword("sub-schema-in")
  const MISSING_FIELDS_AS_NIL: Value := Keyword("missing-fields-as-nil?")
  const IGNORE_EXTRA_FIELDS: Value := Keyword("ignore-extra-fields?")
  const READERS: Value := Keyword("readers")
  const MAP_FN: Value := Keyword("map-fn")
  const ALL: Value := Keyword("all")
  const NONE: Value := Keyword("none")
  const DEFAULT: Value := Keyword("default")
  const BASE_TYPE: Value := Keyword("base-type")
  const COERCION_FN: Value := Keyword("coercion-fn")
  const TO_BASE_TYPE_FN: Value := Keyword("to-base-type-fn")
  const FROM_BASE_TYPE_FN: Value := Keyword("from-base-type-fn")

  const DEFAULT_RECORD_GROUP_LENGTH: int := 128 * 1024 * 1024
  const DEFAULT_DATA_PAGE_LENGTH: int := 256 * 1024
  const DEFAULT_MISSING_FIELDS_AS_NIL: bool := true
  const DEFAULT_IGNORE_EXTRA_FIELDS: bool := true
  const DEFAULT_BUNDLE_SIZE: int := 256

  /** The column optimisation strategies of `RecordGroup`. */
  const STRATEGY_NONE: int := 0
  const STRATEGY_ONLY_DEFAULT: int := 1
  const STRATEGY_ALL: int := 2
  const DEFAULT_OPTIMIZE_COLUMNS: int := STRATEGY_ONLY_DEFAULT

  /** `DEFAULT_COMPRESSION_THRESHOLDS`: deflate when it shrinks the data by
      a factor of 1.5. */
  const DEFAULT_COMPRESSION_THRESHOLDS: map<string, real> := map["deflate" := 1.5]

  /** `instanceof IFn`. */
  predicate IsFn(v: Value) {
    v.Function? || v.Keyword? || v.Symbol? || v.Vector? || v.Map?
  }

  // ---------------------------------------------------------------------
  // Lookups

  /** The position of the first entry with the key. */
  function Find(options: Conf, key: Value): (r: Option<nat>)
    ensures r.None? <==> forall k | 0 <= k < |options| :: options[k].0 != key
    ensures r.Some? ==> r.value < |options| && options[r.value].0 == key
    ensures r.Some? ==> forall k | 0 <= k < r.value :: options[k].0 != key
  {
    if |options| == 0 then None
    else if options[0].0 == key then Some(0)
    else match Find(options[1..], key)
      case None => None
      case Some(k) => Some(k + 1)
  }

  /** `RT.get(options, key, notFound)`: the value of the first entry with
      the key, or `None` for the not-found marker. */
  function Get(options: Conf, key: Value): (r: Option<Value>)
    ensures r.None? <==> forall k | 0 <= k < |options| :: options[k].0 != key
    ensures r.Some? ==> exists k | 0 <= k < |options| :: options[k] == (key, r.value)
  {
    match Find(options, key)
    case None => None
    case Some(k) => Some(options[k].1)
  }

  /** `RT.get(options, key)`: a missing key and a `nil` value both read as
      `null`. */
  function GetOrNil(options: Conf, key: Value): (r: Value)
    ensures Get(options, key).None? ==> r == Nil
    ensures Get(options, key).Some? ==> r == Get(options, key).value
  {
    match Get(options, key)
    case None => Nil
    case Some(v) => v
  }

  /** `checkValidKeys`: every key of the map is one of the valid keys. */
  function CheckValidKeys(options: Conf, validKeys: seq<Value>): (r: Outcome<()>)
    ensures r.Success? <==> forall k | 0 <= k < |options| :: options[k].0 in validKeys
    ensures r.Failure? ==> r.error.IllegalArgument?
  {
    if |options| == 0 then Success(())
    else if options[0].0 !in validKeys then Failure(IllegalArgument("not a supported option"))
    else
      var r := CheckValidKeys(options[1..], validKeys);
      assert forall k | 1 <= k < |options| :: options[k] == options[1..][k - 1];
      r
  }

  /** A key that is looked up in a map that passed `CheckValidKeys` is one
      of the valid keys, or is missing. */
  lemma CheckedKeysOnly(options: Conf, validKeys: seq<Value>, key: Value)
    requires CheckValidKeys(options, validKeys).Success? && key !in validKeys
    ensures Get(options, key).None?
  {
  }

  // ---------------------------------------------------------------------
  // Conversions

  /** A real number truncated toward zero, as a Java cast does. */
  function Truncate(r: real): (i: int)
    ensures i as real <= r < i as real + 1.0 || i as real - 1.0 < r <= i as real
    ensures r >= 0.0 ==> 0 <= i
  {
    if r >= 0.0 then r.Floor else -((-r).Floor)
  }

  /** `RT.intCast`: a whole number in the range of `int`, or a decimal
      truncated into that range; anything else is rejected. */
  function IntCast(v: Value): (r: Outcome<int32>)
    ensures v.Integer? ==> (r.Success? <==> -(TWO_31 as int) <= v.n < TWO_31)
    ensures v.Integer? && r.Success? ==> r.value == v.n
    ensures v.Decimal? && r.Success? ==> r.value == Truncate(v.r)
    ensures !v.Integer? && !v.Decimal? ==> r.Failure?
    ensures r.Failure? ==> r.error.IllegalArgument?
  {
    match v
    case Integer(n) =>
      if -(TWO_31 as int) <= n < TWO_31 then Success(n as int32) else Failure(IllegalArgument("Value out of range for int"))
    case Decimal(x) =>
      var t := Truncate(x);
      if -(TWO_31 as int) <= t < TWO_31 then Success(t as int32) else Failure(IllegalArgument("Value out of range for int"))
    case _ => Failure(IllegalArgument("not a number"))
  }

  /** `RT.doubleCast` of an option value: numbers only. */
  function DoubleCast(v: Value): (r: Outcome<real>)
    ensures r.Success? <==> v.Integer? || v.Decimal?
    ensures v.Integer? ==> r == Success(v.n as real)
    ensures v.Decimal? ==> r == Success(v.r)
  {
    match v
    case Integer(n) => Success(n as real)
    case Decimal(x) => Success(x)
    case _ => Failure(IllegalArgument("not a number"))
  }

  /** `getPositiveInt`: the default when the key is missing; otherwise the
      value cast to an `int`, which must not be negative (zero is
      accepted). */
  function GetPositiveInt(options: Conf, key: Value, defaultValue: int): (r: Outcome<int>)
    ensures Get(options, key).None? ==> r == Success(defaultValue)
    ensures Get(options, key).Some? ==>
      (r.Success? <==> IntCast(Get(options, key).value).Success? && IntCast(Get(options, key).value).value >= 0)
    ensures Get(options, key).Some? && r.Success? ==> 0 <= r.value < TWO_31
    ensures r.Failure? ==> r.error.IllegalArgument?
  {
    match Get(options, key)
    case None => Success(defaultValue)
    case Some(o) =>
      match IntCast(o)
      case Failure(_) => Failure(IllegalArgument("expects a positive int"))
      case Success(v) => if v < 0 then Failure(IllegalArgument("expects a positive int")) else Success(v as int)
  }

  /** A whole number from 0 to `Integer.MAX_VALUE` set for the key is
      what `getPositiveInt` returns, and a negative one is rejected. */
  lemma PositiveIntRoundTrip(options: Conf, key: Value, defaultValue: int, n: int)
    requires Get(options, key) == Some(Integer(n))
    ensures 0 <= n < TWO_31 ==> GetPositiveInt(options, key, defaultValue) == Success(n)
    ensures n < 0 ==> GetPositiveInt(options, key, defaultValue).Failure?
  {
  }

  /** `getMissingFieldsAsNil` and `getIgnoreExtraFields`: the default when
      the key is missing, the boolean when it is one, and an error for
      anything else. */
  function GetBoolean(options: Conf, key: Value, defaultValue: bool): (r: Outcome<bool>)
    ensures Get(options, key).None? ==> r == Success(defaultValue)
    ensures Get(options, key).Some? ==>
      (r.Success? <==> Get(options, key).value.Boolean?)
    ensures Get(options, key).Some? && r.Success? ==> r.value == Get(options, key).value.b
    ensures r.Failure? ==> r.error.IllegalArgument?
  {
    match Get(options, key)
    case None => Success(defaultValue)
    case Some(Boolean(b)) => Success(b)
    case Some(_) => Failure(IllegalArgument("expects a boolean"))
  }

  /** `getFn` and `getInvalidInputHandler`: no function when the key is
      missing, the value when it is a function, and an error otherwise
      (a `nil` value included). */
  function GetFn(options: Conf, key: Value): (r: Outcome<Option<Value>>)
    ensures Get(options, key).None? ==> r == Success(None)
    ensures Get(options, key).Some? ==> (r.Success? <==> IsFn(Get(options, key).value))
    ensures Get(options, key).Some? && r.Success? ==> r.value == Some(Get(options, key).value)
    ensures r.Failure? ==> r.error.IllegalArgument?
  {
    match Get(options, key)
    case None => Success(None)
    case Some(o) => if IsFn(o) then Success(Some(o)) else Failure(IllegalArgument("expects a function"))
  }

  /** The keyword that names each optimisation strategy. */
  function StrategyKeyword(strategy: int): Value {
    if strategy == STRATEGY_NONE then NONE
    else if strategy == STRATEGY_ALL then ALL
    else DEFAULT
  }

  /** `getOptimizationStrategy`: `:default`, `:none` and `:all` name the
      three strategies; a missing key is the default strategy; anything
      else is an error. */
  function GetOptimizationStrategy(options: Conf): (r: Outcome<int>)
    ensures Get(options, OPTIMIZE_COLUMNS).None? ==> r == Success(DEFAULT_OPTIMIZE_COLUMNS)
    ensures Get(options, OPTIMIZE_COLUMNS).Some? ==>
      (r.Success? <==> Get(options, OPTIMIZE_COLUMNS).value in {DEFAULT, NONE, ALL})
    ensures r.Success? ==> r.value in {STRATEGY_NONE, STRATEGY_ONLY_DEFAULT, STRATEGY_ALL}
    ensures r.Failure? ==> r.error.IllegalArgument?
  {
    match Get(options, OPTIMIZE_COLUMNS)
    case None => Success(DEFAULT_OPTIMIZE_COLUMNS)
    case Some(o) =>
      if o == DEFAULT then Success(STRATEGY_ONLY_DEFAULT)
      else if o == NONE then Success(STRATEGY_NONE)
      else if o == ALL then Success(STRATEGY_ALL)
      else Failure(IllegalArgument("expects one of :all, :none, or :default"))
  }

  /** Each strategy's keyword is read back as that strategy. */
  lemma StrategyRoundTrip(options: Conf, strategy: int)
    requires strategy in {STRATEGY_NONE, STRATEGY_ONLY_DEFAULT, STRATEGY_ALL}
    requires Get(options, OPTIMIZE_COLUMNS) == Some(StrategyKeyword(strategy))
    ensures GetOptimizationStrategy(options) == Success(strategy)
  {
  }

  /** `getCompressionThresholds`, from the entries of the map on: each key
      a symbol and each value a number that is not negative. */
  function ThresholdsOf(entries: seq<(Value, Value)>): (r: Outcome<map<string, real>>)
    ensures r.Success? <==> forall k | 0 <= k < |entries| ::
      && entries[k].0.Symbol?
      && DoubleCast(entries[k].1).Success?
      && DoubleCast(entries[k].1).value >= 0.0
    ensures r.Success? ==> forall s | s in r.value :: r.value[s] >= 0.0
    ensures r.Success? ==> forall k | 0 <= k < |entries| :: entries[k].0.name in r.value
    ensures r.Failure? ==> r.error.IllegalArgument?
  {
    if |entries| == 0 then Success(map[])
    else
      var key := entries[0].0;
      if !key.Symbol? then Failure(IllegalArgument("expects its keys to be symbols"))
      else
        var threshold :- DoubleCast(entries[0].1);
        if threshold < 0.0 then Failure(IllegalArgument("expects its values to be positive"))
        else
          var rest :- ThresholdsOf(entries[1..]);
          assert forall k | 1 <= k < |entries| :: entries[k] == entries[1..][k - 1];
          Success(rest[key.name := threshold])
  }

  /** `getCompressionThresholds`: the default thresholds for a missing or
      `nil` value, the thresholds of a map, and an error for anything
      else. */
  function GetCompressionThresholds(options: Conf): (r: Outcome<map<string, real>>)
    ensures GetOrNil(options, COMPRESSION_THRESHOLDS) == Nil ==> r == Success(DEFAULT_COMPRESSION_THRESHOLDS)
    ensures r.Success? ==> forall s | s in r.value :: r.value[s] >= 0.0
    ensures r.Success? ==> GetOrNil(options, COMPRESSION_THRESHOLDS).Nil? || GetOrNil(options, COMPRESSION_THRESHOLDS).Map?
  {
    match GetOrNil(options, COMPRESSION_THRESHOLDS)
    case Nil => Success(DEFAULT_COMPRESSION_THRESHOLDS)
    case Map(entries) => ThresholdsOf(entries)
    case _ => Failure(IllegalArgument("expects a map"))
  }

  // ---------------------------------------------------------------------
  // Custom type definitions

  /** `CustomTypeDefinition`. */
  datatype CustomTypeDefinition = CustomTypeDefinition(
    typeSymbol: string,
    baseTypeSymbol: string,
    coercionFn: Option<Value>,
    toBaseTypeFn: Option<Value>,
    fromBaseTypeFn: Option<Value>)

  const VALID_CUSTOM_TYPE_DEFINITION_KEYS: seq<Value> := [BASE_TYPE, COERCION_FN, TO_BASE_TYPE_FN, FROM_BASE_TYPE_FN]

  /** `getBaseTypeSymbol`: the required base type, a symbol. */
  function GetBaseTypeSymbol(definition: Conf): (r: Outcome<string>)
    ensures r.Success? <==> Get(definition, BASE_TYPE).Some? && Get(definition, BASE_TYPE).value.Symbol?
    ensures r.Success? ==> Get(definition, BASE_TYPE) == Some(Symbol(r.value))
  {
    match Get(definition, BASE_TYPE)
    case None => Failure(IllegalArgument("Required field :base-type is missing."))
    case Some(Symbol(s)) => Success(s)
    case Some(_) => Failure(IllegalArgument("Base type is not a symbol."))
  }

  /** `getCustomTypeDefinition`: only the four definition keys, a base
      type, and functions for the optional conversion keys; any error is
      reported as an error parsing the custom type. */
  function GetCustomTypeDefinition(sym: string, definition: Conf): (r: Outcome<CustomTypeDefinition>)
    ensures r.Success? <==>
      && CheckValidKeys(definition, VALID_CUSTOM_TYPE_DEFINITION_KEYS).Success?
      && GetBaseTypeSymbol(definition).Success?
      && GetFn(definition, COERCION_FN).Success?
      && GetFn(definition, TO_BASE_TYPE_FN).Success?
      && GetFn(definition, FROM_BASE_TYPE_FN).Success?
    ensures r.Success? ==>
      && r.value.typeSymbol == sym
      && r.value.baseTypeSymbol == GetBaseTypeSymbol(definition).value
      && r.value.coercionFn == GetFn(definition, COERCION_FN).value
      && r.value.toBaseTypeFn == GetFn(definition, TO_BASE_TYPE_FN).value
      && r.value.fromBaseTypeFn == GetFn(definition, FROM_BASE_TYPE_FN).value
    ensures r.Failure? ==> r.error == IllegalArgument("Error parsing custom-type")
  {
    var parsed := (
      var _ :- CheckValidKeys(definition, VALID_CUSTOM_TYPE_DEFINITION_KEYS);
      var base :- GetBaseTypeSymbol(definition);
      var coercion :- GetFn(definition, COERCION_FN);
      var to :- GetFn(definition, TO_BASE_TYPE_FN);
      var from :- GetFn(definition, FROM_BASE_TYPE_FN);
      Success(CustomTypeDefinition(sym, base, coercion, to, from)));
    if parsed.Success? then parsed else Failure(IllegalArgument("Error parsing custom-type"))
  }

  /** A custom-types map entry, a symbol key and a map value, and the
      definition it parses to. */
  predicate Defines(entry: (Value, Value), d: CustomTypeDefinition) {
    && entry.0.Symbol? && entry.1.Map?
    && GetCustomTypeDefinition(entry.0.name, entry.1.entries) == Success(d)
  }

  /** The definitions of the entries of the custom-types map, in order:
      each key a symbol and each value a map. */
  function DefinitionsOf(entries: seq<(Value, Value)>): (r: Outcome<seq<CustomTypeDefinition>>)
    ensures r.Success? ==> |r.value| == |entries|
    ensures r.Success? ==> forall k | 0 <= k < |entries| :: Defines(entries[k], r.value[k])
    ensures r.Failure? ==> r.error.IllegalArgument?
  {
    if |entries| == 0 then Success([])
    else
      var (key, val) := entries[0];
      if !key.Symbol? then Failure(IllegalArgument("custom type key shoud be a symbol"))
      else if !val.Map? then Failure(IllegalArgument("custom type value should be a map"))
      else
        var d :- GetCustomTypeDefinition(key.name, val.entries);
        var rest :- DefinitionsOf(entries[1..]);
        DefinesCons(entries, d, rest);
        Success([d] + rest)
  }

  lemma DefinesCons(entries: seq<(Value, Value)>, d: CustomTypeDefinition, rest: seq<CustomTypeDefinition>)
    requires |entries| > 0 && |rest| == |entries| - 1
    requires Defines(entries[0], d)
    requires forall k | 0 <= k < |rest| :: Defines(entries[1..][k], rest[k])
    ensures forall k | 0 <= k < |entries| :: Defines(entries[k], ([d] + rest)[k])
  {
    ConsPointwise(Defines, entries, d, rest);
  }

  /** `getCustomTypeDefinitions`: none when the key is missing; the
      definitions of a map; an error for anything else. */
  function GetCustomTypeDefinitions(options: Conf): (r: Outcome<seq<CustomTypeDefinition>>)
    ensures Get(options, CUSTOM_TYPES).None? ==> r == Success([])
    ensures r.Success? && Get(options, CUSTOM_TYPES).Some? ==>
      Get(options, CUSTOM_TYPES).value.Map? && |r.value| == |Get(options, CUSTOM_TYPES).value.entries|
    ensures r.Failure? ==> r.error.IllegalArgument?
  {
    match Get(options, CUSTOM_TYPES)
    case None => Success([])
    case Some(Map(entries)) => DefinitionsOf(entries)
    case Some(_) => Failure(IllegalArgument("expects a map"))
  }

  // ---------------------------------------------------------------------
  // Reader, read and writer options

  /** `ReaderOptions`. */
  datatype ReaderOptions = ReaderOptions(customTypeDefinitions: seq<CustomTypeDefinition>)

  /** `getReaderOptions`: only `:custom-types` is a reader option. */
  function GetReaderOptions(options: Conf): (r: Outcome<ReaderOptions>)
    ensures r.Success? <==>
      && (forall k | 0 <= k < |options| :: options[k].0 == CUSTOM_TYPES)
      && GetCustomTypeDefinitions(options).Success?
    ensures r.Success? ==> r.value.customTypeDefinitions == GetCustomTypeDefinitions(options).value
  {
    var _ :- CheckValidKeys(options, [CUSTOM_TYPES]);
    var defs :- GetCustomTypeDefinitions(options);
    Success(ReaderOptions(defs))
  }

  /** `getSubSchemaPath`: the keywords of a seqable value; `nil` is the
      empty path; a value that is not seqable, or an element that is not
      a keyword, is an error. A map's elements are its entries and a
      string's its characters, neither of them keywords. */
  function GetSubSchemaPath(v: Value): (r: Outcome<seq<string>>)
    ensures v.Nil? ==> r == Success([])
    ensures v.Vector? ==> (r.Success? <==> forall k | 0 <= k < |v.items| :: v.items[k].Keyword?)
    ensures v.Vector? && r.Success? ==> |r.value| == |v.items| && forall k | 0 <= k < |v.items| :: v.items[k] == Keyword(r.value[k])
    ensures r.Failure? ==> r.error.IllegalArgument?
  {
    match v
    case Nil => Success([])
    case Vector(items) => KeywordsOf(items)
    case Map(entries) => if |entries| == 0 then Success([]) else Failure(IllegalArgument("sub-schema-in can only contain keywords"))
    case Text(s) => if |s| == 0 then Success([]) else Failure(IllegalArgument("sub-schema-in can only contain keywords"))
    case _ => Failure(IllegalArgument("expects a seqable object"))
  }

  /** The names of a list of keywords. */
  function KeywordsOf(items: seq<Value>): (r: Outcome<seq<string>>)
    ensures r.Success? <==> forall k | 0 <= k < |items| :: items[k].Keyword?
    ensures r.Success? ==> |r.value| == |items| && forall k | 0 <= k < |items| :: items[k] == Keyword(r.value[k])
    ensures r.Failure? ==> r.error.IllegalArgument?
  {
    if |items| == 0 then Success([])
    else if !items[0].Keyword? then Failure(IllegalArgument("sub-schema-in can only contain keywords"))
    else
      var rest :- KeywordsOf(items[1..]);
      assert forall k | 1 <= k < |items| :: items[k] == items[1..][k - 1];
      Success([items[0].name] + rest)
  }

  /** `getTagReaders` from the entries of the map on: each key a symbol and
      each value a function. */
  function ReadersOf(entries: seq<(Value, Value)>): (r: Outcome<map<string, Value>>)
    ensures r.Success? <==> forall k | 0 <= k < |entries| :: entries[k].0.Symbol? && IsFn(entries[k].1)
    ensures r.Success? ==> forall s | s in r.value :: IsFn(r.value[s])
    ensures r.Success? ==> forall k | 0 <= k < |entries| :: entries[k].0.name in r.value
    ensures r.Failure? ==> r.error.IllegalArgument?
  {
    if |entries| == 0 then Success(map[])
    else
      var (key, val) := entries[0];
      if !key.Symbol? then Failure(IllegalArgument("reader key should be a symbol"))
      else if !IsFn(val) then Failure(IllegalArgument("reader value should be a function"))
      else
        var rest :- ReadersOf(entries[1..]);
        assert forall k | 1 <= k < |entries| :: entries[k] == entries[1..][k - 1];
        Success(rest[key.name := val])
  }

  /** `getTagReaders`: no readers for a missing or `nil` value, the
      readers of a map, and an error for anything else. */
  function GetTagReaders(options: Conf): (r: Outcome<Option<map<string, Value>>>)
    ensures GetOrNil(options, READERS) == Nil ==> r == Success(None)
    ensures r.Success? && r.value.Some? ==> GetOrNil(options, READERS).Map?
    ensures r.Failure? ==> r.error.IllegalArgument?
  {
    match GetOrNil(options, READERS)
    case Nil => Success(None)
    case Map(entries) =>
      var readers :- ReadersOf(entries);
      Success(Some(readers))
    case _ => Failure(IllegalArgument("expects a map"))
  }

  /** `ReadOptions`. A `query` of `None` is the default query, the whole
      sub-schema. */
  datatype ReadOptions = ReadOptions(
    query: Option<Value>,
    subSchemaPath: seq<string>,
    isMissingFieldsAsNil: bool,
    readers: Option<map<string, Value>>,
    bundleSize: int,
    sampleFn: Option<Value>,
    indexedByFn: Option<Value>,
    transduceFn: Option<Value>)

  const VALID_READ_OPTION_KEYS: seq<Value> := [QUERY, SUB_SCHEMA_IN, MISSING_FIELDS_AS_NIL, READERS]

  /** `getReadOptions`: the four read options, checked in order, with no
      sample, indexing or transducer function yet. */
  function GetReadOptions(options: Conf): (r: Outcome<ReadOptions>)
    ensures r.Success? ==> CheckValidKeys(options, VALID_READ_OPTION_KEYS).Success?
    ensures r.Success? ==>
      && GetSubSchemaPath(GetOrNil(options, SUB_SCHEMA_IN)).Success?
      && GetBoolean(options, MISSING_FIELDS_AS_NIL, DEFAULT_MISSING_FIELDS_AS_NIL).Success?
      && r.value.query == Get(options, QUERY)
      && r.value.subSchemaPath == GetSubSchemaPath(GetOrNil(options, SUB_SCHEMA_IN)).value
      && r.value.isMissingFieldsAsNil == GetBoolean(options, MISSING_FIELDS_AS_NIL, DEFAULT_MISSING_FIELDS_AS_NIL).value
      && r.value.bundleSize == DEFAULT_BUNDLE_SIZE
    ensures r.Success? ==> r.value.sampleFn.None? && r.value.indexedByFn.None? && r.value.transduceFn.None?
    ensures r.Failure? ==> r.error.IllegalArgument?
  {
    var _ :- CheckValidKeys(options, VALID_READ_OPTION_KEYS);
    var path :- GetSubSchemaPath(GetOrNil(options, SUB_SCHEMA_IN));
    var missingFieldsAsNil :- GetBoolean(options, MISSING_FIELDS_AS_NIL, DEFAULT_MISSING_FIELDS_AS_NIL);
    var readers :- GetTagReaders(options);
    Success(ReadOptions(Get(options, QUERY), path, missingFieldsAsNil, readers, DEFAULT_BUNDLE_SIZE, None, None, None))
  }

  /** `withSampleFn`: only one sample function, and only before any
      indexing or transducer function. */
  function WithSampleFn(o: ReadOptions, f: Value): (r: Outcome<ReadOptions>)
    ensures r.Success? <==> o.sampleFn.None? && o.indexedByFn.None? && o.transduceFn.None?
    ensures r.Success? ==> r.value == o.(sampleFn := Some(f))
  {
    if o.sampleFn.Some? then Failure(IllegalArgument("Cannot define multiple sample functions."))
    else if o.indexedByFn.Some? || o.transduceFn.Some? then
      Failure(IllegalArgument("Sample function must be defined before any indexing or transducer function."))
    else Success(o.(sampleFn := Some(f), indexedByFn := None, transduceFn := None))
  }

  /** `withIndexedByFn`: only before any transducer function; it replaces
      an earlier indexing function. */
  function WithIndexedByFn(o: ReadOptions, f: Value): (r: Outcome<ReadOptions>)
    ensures r.Success? <==> o.transduceFn.None?
    ensures r.Success? ==> r.value == o.(indexedByFn := Some(f))
  {
    if o.transduceFn.Some? then Failure(IllegalArgument("Indexing function must be defined before any transducer"))
    else Success(o.(indexedByFn := Some(f), transduceFn := None))
  }

  /** `withTransduceFn`: always accepted, replacing an earlier transducer
      function. */
  function WithTransduceFn(o: ReadOptions, f: Value): (r: ReadOptions)
    ensures r.transduceFn == Some(f) && r.sampleFn == o.sampleFn && r.indexedByFn == o.indexedByFn
    ensures r.query == o.query && r.subSchemaPath == o.subSchemaPath && r.readers == o.readers
  {
    o.(transduceFn := Some(f))
  }

  /** A call of the read builder. */
  datatype Call = Sample(f: Value) | IndexedBy(f: Value) | Transduce(f: Value)

  /** The stage of a call: sampling, then indexing, then transducing. */
  function Stage(c: Call): nat {
    match c
    case Sample(_) => 0
    case IndexedBy(_) => 1
    case Transduce(_) => 2
  }

  /** One builder call. */
  function ApplyCall(o: ReadOptions, c: Call): Outcome<ReadOptions> {
    match c
    case Sample(f) => WithSampleFn(o, f)
    case IndexedBy(f) => WithIndexedByFn(o, f)
    case Transduce(f) => Success(WithTransduceFn(o, f))
  }

  /** The builder calls applied in order. */
  function ApplyCalls(o: ReadOptions, calls: seq<Call>): Outcome<ReadOptions>
    decreases |calls|
  {
    if |calls| == 0 then Success(o)
    else
      var next :- ApplyCall(o, calls[0]);
      ApplyCalls(next, calls[1..])
  }

  /** Calls in stage order, with at most one sample call. */
  predicate InOrder(calls: seq<Call>) {
    && (forall j, k | 0 <= j < k < |calls| :: Stage(calls[j]) <= Stage(calls[k]))
    && (forall j, k | 0 <= j < k < |calls| :: !calls[j].Sample? || !calls[k].Sample?)
  }

  /** The stage the options have reached: the last function set. */
  function Reached(o: ReadOptions): int {
    if o.transduceFn.Some? then 2
    else if o.indexedByFn.Some? then 1
    else if o.sampleFn.Some? then 0
    else -1
  }

  /** Calls the options can still take: none before the stage reached, and
      no sample call once one was made. */
  predicate Allowed(o: ReadOptions, calls: seq<Call>) {
    && InOrder(calls)
    && (forall k | 0 <= k < |calls| :: Stage(calls[k]) >= Reached(o))
    && (forall k | 0 <= k < |calls| :: calls[k].Sample? ==> o.sampleFn.None? && Reached(o) < 0)
  }

  /** After an accepted call the options have reached its stage, and a
      sample function is set exactly when one was before or the call set
      it. */
  lemma ApplyCallReached(o: ReadOptions, c: Call)
    requires ApplyCall(o, c).Success?
    ensures Reached(ApplyCall(o, c).value) == Stage(c)
    ensures ApplyCall(o, c).value.sampleFn.Some? <==> o.sampleFn.Some? || c.Sample?
  {
  }

  /** A call the options refuse comes too late or is a second sample
      call. */
  lemma ApplyCallRejected(o: ReadOptions, calls: seq<Call>)
    requires |calls| > 0 && ApplyCall(o, calls[0]).Failure?
    ensures !Allowed(o, calls)
  {
    assert Stage(calls[0]) < Reached(o) || (calls[0].Sample? && (o.sampleFn.Some? || Reached(o) >= 0));
  }

  /** Calls allowed now are, after the first, allowed from its result. */
  lemma AllowedStepForward(o: ReadOptions, calls: seq<Call>)
    requires |calls| > 0 && ApplyCall(o, calls[0]).Success?
    requires Allowed(o, calls)
    ensures Allowed(ApplyCall(o, calls[0]).value, calls[1..])
  {
    var next := ApplyCall(o, calls[0]).value;
    ApplyCallReached(o, calls[0]);
    forall k | 0 <= k < |calls[1..]|
      ensures Stage(calls[1..][k]) >= Reached(next)
      ensures !calls[1..][k].Sample?
    {
      assert calls[1..][k] == calls[k + 1];
      assert Stage(calls[0]) <= Stage(calls[k + 1]);
      assert !calls[0].Sample? || !calls[k + 1].Sample?;
    }
  }

  /** Calls allowed after the first call's result are, with that call,
      allowed now. */
  lemma AllowedStepBackward(o: ReadOptions, calls: seq<Call>)
    requires |calls| > 0 && ApplyCall(o, calls[0]).Success?
    requires Allowed(ApplyCall(o, calls[0]).value, calls[1..])
    ensures Allowed(o, calls)
  {
    var next := ApplyCall(o, calls[0]).value;
    ApplyCallReached(o, calls[0]);
    assert forall k | 1 <= k < |calls| :: calls[k] == calls[1..][k - 1];
    forall j, k | 0 <= j < k < |calls|
      ensures Stage(calls[j]) <= Stage(calls[k])
      ensures !calls[j].Sample? || !calls[k].Sample?
    {
      if j > 0 {
        assert Stage(calls[1..][j - 1]) <= Stage(calls[1..][k - 1]);
        assert !calls[1..][j - 1].Sample? || !calls[1..][k - 1].Sample?;
      } else {
        assert Stage(calls[1..][k - 1]) >= Reached(next);
      }
    }
  }

  lemma {:induction false} ApplyCallsAllowed(o: ReadOptions, calls: seq<Call>)
    ensures ApplyCalls(o, calls).Success? <==> Allowed(o, calls)
    decreases |calls|
  {
    if |calls| > 0 {
      var r := ApplyCall(o, calls[0]);
      if r.Success? {
        assert ApplyCalls(o, calls) == ApplyCalls(r.value, calls[1..]);
        ApplyCallsAllowed(r.value, calls[1..]);
        if Allowed(o, calls) {
          AllowedStepForward(o, calls);
        }
        if Allowed(r.value, calls[1..]) {
          AllowedStepBackward(o, calls);
        }
      } else {
        ApplyCallRejected(o, calls);
      }
    }
  }

  /** Starting from fresh read options, a list of builder calls is
      accepted exactly when its calls come in the order sample, indexing,
      transducer, with at most one sample call. */
  lemma BuilderOrder(options: Conf, calls: seq<Call>)
    requires GetReadOptions(options).Success?
    ensures ApplyCalls(GetReadOptions(options).value, calls).Success? <==> InOrder(calls)
  {
    ApplyCallsAllowed(GetReadOptions(options).value, calls);
  }

  /** `WriterOptions`. */
  datatype WriterOptions = WriterOptions(
    recordGroupLength: int,
    dataPageLength: int,
    optimizationStrategy: int,
    compressionThresholds: map<string, real>,
    invalidInputHandler: Option<Value>,
    customTypeDefinitions: seq<CustomTypeDefinition>,
    bundleSize: int,
    mapFn: Option<Value>,
    isIgnoreExtraFields: bool)

  const VALID_WRITER_OPTION_KEYS: seq<Value> :=
    [RECORD_GROUP_LENGTH, DATA_PAGE_LENGTH, OPTIMIZE_COLUMNS, COMPRESSION_THRESHOLDS,
     INVALID_INPUT_HANDLER, CUSTOM_TYPES, MAP_FN, IGNORE_EXTRA_FIELDS]

  /** The two writer lengths, record group first. */
  function GetWriterLengths(options: Conf): (r: Outcome<(int, int)>)
    ensures r.Success? <==>
      && GetPositiveInt(options, RECORD_GROUP_LENGTH, DEFAULT_RECORD_GROUP_LENGTH).Success?
      && GetPositiveInt(options, DATA_PAGE_LENGTH, DEFAULT_DATA_PAGE_LENGTH).Success?
    ensures r.Success? ==>
      && r.value.0 == GetPositiveInt(options, RECORD_GROUP_LENGTH, DEFAULT_RECORD_GROUP_LENGTH).value
      && r.value.1 == GetPositiveInt(options, DATA_PAGE_LENGTH, DEFAULT_DATA_PAGE_LENGTH).value
    ensures r.Failure? ==> r.error.IllegalArgument?
  {
    var recordGroupLength :- GetPositiveInt(options, RECORD_GROUP_LENGTH, DEFAULT_RECORD_GROUP_LENGTH);
    var dataPageLength :- GetPositiveInt(options, DATA_PAGE_LENGTH, DEFAULT_DATA_PAGE_LENGTH);
    Success((recordGroupLength, dataPageLength))
  }

  /** The first four writer options, in the order `getWriterOptions` checks
      them: the two lengths, the optimization strategy and the compression
      thresholds. */
  function GetWriterSizes(options: Conf): (r: Outcome<(int, int, int, map<string, real>)>)
    ensures r.Success? <==>
      && GetWriterLengths(options).Success?
      && GetOptimizationStrategy(options).Success?
      && GetCompressionThresholds(options).Success?
    ensures r.Success? ==>
      && (r.value.0, r.value.1) == GetWriterLengths(options).value
      && r.value.2 == GetOptimizationStrategy(options).value
      && r.value.3 == GetCompressionThresholds(options).value
    ensures r.Failure? ==> r.error.IllegalArgument?
  {
    var lengths :- GetWriterLengths(options);
    var strategy :- GetOptimizationStrategy(options);
    var thresholds :- GetCompressionThresholds(options);
    Success((lengths.0, lengths.1, strategy, thresholds))
  }

  /** The last four writer options: the invalid-input handler, the custom
      types, the map function and the extra-fields flag. */
  function GetWriterFns(options: Conf): (r: Outcome<(Option<Value>, seq<CustomTypeDefinition>, Option<Value>, bool)>)
    ensures r.Success? <==>
      && GetFn(options, INVALID_INPUT_HANDLER).Success?
      && GetCustomTypeDefinitions(options).Success?
      && GetFn(options, MAP_FN).Success?
      && GetBoolean(options, IGNORE_EXTRA_FIELDS, DEFAULT_IGNORE_EXTRA_FIELDS).Success?
    ensures r.Success? ==>
      && r.value.0 == GetFn(options, INVALID_INPUT_HANDLER).value
      && r.value.2 == GetFn(options, MAP_FN).value
      && r.value.3 == GetBoolean(options, IGNORE_EXTRA_FIELDS, DEFAULT_IGNORE_EXTRA_FIELDS).value
    ensures r.Failure? ==> r.error.IllegalArgument?
  {
    var handler :- GetFn(options, INVALID_INPUT_HANDLER);
    var definitions :- GetCustomTypeDefinitions(options);
    var mapFn :- GetFn(options, MAP_FN);
    var ignoreExtraFields :- GetBoolean(options, IGNORE_EXTRA_FIELDS, DEFAULT_IGNORE_EXTRA_FIELDS);
    Success((handler, definitions, mapFn, ignoreExtraFields))
  }

  /** `getWriterOptions`: the eight writer options, checked in order after
      the keys themselves. */
  function GetWriterOptions(options: Conf): (r: Outcome<WriterOptions>)
    ensures r.Success? <==>
      && CheckValidKeys(options, VALID_WRITER_OPTION_KEYS).Success?
      && GetWriterSizes(options).Success?
      && GetWriterFns(options).Success?
    ensures r.Success? ==>
      && r.value.recordGroupLength == GetWriterSizes(options).value.0
      && r.value.dataPageLength == GetWriterSizes(options).value.1
      && r.value.optimizationStrategy == GetWriterSizes(options).value.2
      && r.value.compressionThresholds == GetWriterSizes(options).value.3
      && r.value.invalidInputHandler == GetWriterFns(options).value.0
      && r.value.customTypeDefinitions == GetWriterFns(options).value.1
      && r.value.mapFn == GetWriterFns(options).value.2
      && r.value.isIgnoreExtraFields == GetWriterFns(options).value.3
      && r.value.bundleSize == DEFAULT_BUNDLE_SIZE
    ensures r.Failure? ==> r.error.IllegalArgument?
  {
    var _ :- CheckValidKeys(options, VALID_WRITER_OPTION_KEYS);
    var sizes :- GetWriterSizes(options);
    var fns :- GetWriterFns(options);
    Success(WriterOptions(sizes.0, sizes.1, sizes.2, sizes.3, fns.0, fns.1,
                          DEFAULT_BUNDLE_SIZE, fns.2, fns.3))
  }

  /** Accepted writer options have non-negative lengths, one of the three
      strategies and non-negative compression thresholds. */
  lemma WriterOptionsInRange(options: Conf)
    requires GetWriterOptions(options).Success?
    ensures var w := GetWriterOptions(options).value;
      && w.recordGroupLength >= 0 && w.dataPageLength >= 0
      && w.optimizationStrategy in {STRATEGY_NONE, STRATEGY_ONLY_DEFAULT, STRATEGY_ALL}
      && (forall s | s in w.compressionThresholds :: w.compressionThresholds[s] >= 0.0)
  {
  }

  /** With no options, every writer option takes its default. */
  lemma WriterDefaults()
    ensures GetWriterOptions([]) == Success(WriterOptions(
      DEFAULT_RECORD_GROUP_LENGTH, DEFAULT_DATA_PAGE_LENGTH, DEFAULT_OPTIMIZE_COLUMNS,
      DEFAULT_COMPRESSION_THRESHOLDS, None, [], DEFAULT_BUNDLE_SIZE, None, DEFAULT_IGNORE_EXTRA_FIELDS))
  {
  }

  /** With no options, the read options are the defaults: the whole
      schema, from its root, with missing fields read as `nil`. */
  lemma ReadDefaults()
    ensures GetReadOptions([]) == Success(ReadOptions(None, [], true, None, DEFAULT_BUNDLE_SIZE, None, None, None))
  {
  }

  /** A writer option is not a read option and the reverse: a map holding
      both is rejected by both. */
  lemma ReadAndWriteKeysDisjoint(options: Conf, j: nat, k: nat)
    requires j < |options| && k < |options|
    requires options[j].0 in VALID_READ_OPTION_KEYS && options[k].0 in VALID_WRITER_OPTION_KEYS
    ensures GetReadOptions(options).Failure? && GetWriterOptions(options).Failure?
  {
    assert options[k].0 !in VALID_READ_OPTION_KEYS;
    assert options[j].0 !in VALID_WRITER_OPTION_KEYS;
    assert CheckValidKeys(options, VALID_READ_OPTION_KEYS).Failure?;
    assert CheckValidKeys(options, VALID_WRITER_OPTION_KEYS).Failure?;
  }
}
