/** `PersistentRecord`: a record with a fixed, ordered set of keyword keys,
    its values in key order with `UNDEFINED` marking a missing one, and the
    `KeywordIndexHashMap` that finds a keyword's index: an open-addressing
    table of 64-bit slots, each packing a presence bit, the keyword's hash
    and its index, probed linearly from the hash's home slot. */
module PersistentRecords {
  import opened Wrappers
  import opened Words

  /** A Clojure keyword: its name and its 32-bit `hasheq`. */
  datatype Keyword = Keyword(name: string, hasheq: int32)

  // ---------------------------------------------------------------------
  // Slots

  /** The slot value of a keyword with hash `h` at index `i`: the presence
      bit (bit 63, the sign bit of a `long`), the hash's 32 bits, and the
      index in bits 32 to 62. */
  function Pack(h: int32, i: nat): int
    requires i < TWO_31
  {
    -(TWO_63 as int) + h % TWO_32 + i * TWO_32
  }

  /** `hv & hasheqMask`: the low 32 bits of a slot. */
  function HashBits(v: int): int {
    v % TWO_32
  }

  /** `(hv & idxMask) >>> 32`: bits 32 to 62 of a slot. */
  function IndexBits(v: int): int {
    (v % TWO_63) / TWO_32
  }

  /** `(long)hasheq & hasheqMask`: the 32 bits of a hash. */
  function Bits(h: int32): (u: int)
    ensures 0 <= u < TWO_32
  {
    h % TWO_32
  }

  /** Two hashes have the same bits only when they are equal. */
  lemma BitsInjective(h: int32, g: int32)
    ensures Bits(h) == Bits(g) <==> h == g
  {
    if Bits(h) == Bits(g) {
      assert h - g == (h / TWO_32 - g / TWO_32) * TWO_32;
    }
  }

  /** A packed slot is a negative `long`, so never the empty slot 0, and
      gives back its hash bits and its index. */
  lemma PackUnpack(h: int32, i: nat)
    requires i < TWO_31
    ensures -(TWO_63 as int) <= Pack(h, i) < 0
    ensures HashBits(Pack(h, i)) == Bits(h)
    ensures IndexBits(Pack(h, i)) == i
  {
    var u := Bits(h);
    var v := Pack(h, i);
    DivModUnique(v, TWO_32, i - TWO_31, u);
    DivModUnique(v, TWO_63, -1, u + i * TWO_32);
    DivModUnique(u + i * TWO_32, TWO_32, i, u);
  }

  // ---------------------------------------------------------------------
  // Table size

  /** The loop of `hashArraySize` from `s = 2^k`: double `s` until it is at
      least `n`. */
  function SmallestPow2From(k: nat, n: nat): (e: nat)
    requires k == 0 || Pow2(k - 1) < n
    ensures Pow2(e) >= n && (e == 0 || Pow2(e - 1) < n)
    decreases n - Pow2(k)
  {
    if Pow2(k) < n then SmallestPow2From(k + 1, n) else k
  }

  /** `hashArraySize`: twice the smallest power of two that is at least the
      number of keywords, so that at most half the slots are used. */
  function HashArraySize(n: nat): (size: nat)
    ensures exists e: nat :: size == 2 * Pow2(e) && Pow2(e) >= n && (forall f: nat :: Pow2(f) >= n ==> f >= e)
    ensures size >= 2 && size >= 2 * n
  {
    var e := SmallestPow2From(0, n);
    forall f: nat | Pow2(f) >= n
      ensures f >= e
    {
      if f < e {
        Pow2Monotone(f, e - 1);
      }
    }
    2 * Pow2(e)
  }

  // ---------------------------------------------------------------------
  // Probing

  /** `(j + 1) & mask`: the next slot, wrapping at the end of a table whose
      size is a power of two. */
  function NextSlot(j: nat, n: nat): (k: nat)
    requires j < n
    ensures k < n
  {
    if j + 1 == n then 0 else j + 1
  }

  /** The slot `d` probes after `j`. */
  function Reach(j: nat, d: nat, n: nat): (k: nat)
    requires j < n
    ensures k < n
    decreases d
  {
    if d == 0 then j else Reach(NextSlot(j, n), d - 1, n)
  }

  lemma {:induction false} ReachAdd(j: nat, a: nat, b: nat, n: nat)
    requires j < n
    ensures Reach(j, a + b, n) == Reach(Reach(j, a, n), b, n)
    decreases a
  {
    if a > 0 {
      ReachAdd(NextSlot(j, n), a - 1, b, n);
    }
  }

  lemma {:induction false} ReachForward(j: nat, d: nat, n: nat)
    requires j + d < n
    ensures Reach(j, d, n) == j + d
    decreases d
  {
    if d > 0 {
      ReachForward(j + 1, d - 1, n);
    }
  }

  /** Probing from `j` comes to every slot `e` within `n - 1` steps. */
  lemma ReachEvery(j: nat, e: nat, n: nat)
    requires j < n && e < n
    ensures exists d | 0 <= d < n :: Reach(j, d, n) == e
  {
    if j <= e {
      ReachForward(j, e - j, n);
    } else {
      ReachForward(j, n - 1 - j, n);
      ReachAdd(j, n - 1 - j, 1, n);
      ReachForward(0, e, n);
      ReachAdd(j, n - j, e, n);
      assert Reach(j, n - j + e, n) == e;
    }
  }

  /** A table with an empty slot. */
  predicate HasEmpty(table: seq<int>) {
    exists e | 0 <= e < |table| :: table[e] == 0
  }

  /** An empty slot within `fuel` probes from `j`. */
  predicate EmptyWithin(table: seq<int>, j: nat, fuel: nat)
    requires j < |table|
  {
    exists d | 0 <= d <= fuel :: table[Reach(j, d, |table|)] == 0
  }

  lemma HasEmptyWithin(table: seq<int>, j: nat)
    requires HasEmpty(table) && j < |table|
    ensures EmptyWithin(table, j, |table| - 1)
  {
    var e :| 0 <= e < |table| && table[e] == 0;
    ReachEvery(j, e, |table|);
  }

  lemma EmptyWithinStep(table: seq<int>, j: nat, fuel: nat)
    requires j < |table| && EmptyWithin(table, j, fuel) && table[j] != 0
    ensures fuel > 0 && EmptyWithin(table, NextSlot(j, |table|), fuel - 1)
  {
    var d :| 0 <= d <= fuel && table[Reach(j, d, |table|)] == 0;
    assert d > 0;
    assert table[Reach(NextSlot(j, |table|), d - 1, |table|)] == 0;
  }

  /** The loops of `insert` and `get`: from slot `j`, the first slot that
      is empty or holds the hash bits `u`. */
  function Stop(table: seq<int>, u: int, j: nat, fuel: nat): (s: nat)
    requires j < |table| && EmptyWithin(table, j, fuel)
    ensures s < |table| && (table[s] == 0 || HashBits(table[s]) == u)
    decreases fuel
  {
    if table[j] == 0 || HashBits(table[j]) == u then j
    else
      EmptyWithinStep(table, j, fuel);
      Stop(table, u, NextSlot(j, |table|), fuel - 1)
  }

  /** The probe for hash bits `u` from slot `j` of a table with an empty
      slot. */
  function StopAt(table: seq<int>, u: int, j: nat): (s: nat)
    requires HasEmpty(table) && j < |table|
    ensures s < |table| && (table[s] == 0 || HashBits(table[s]) == u)
  {
    HasEmptyWithin(table, j);
    Stop(table, u, j, |table| - 1)
  }

  /** `hasheq & mask`: the home slot of a hash, its remainder modulo the
      table size (a power of two, so the mask keeps exactly those bits). */
  function Home(h: int32, n: nat): (j: nat)
    requires n > 0
    ensures j < n
  {
    h % n
  }

  /** A probe that stops at a slot holding the hash is not changed by
      filling an empty slot. */
  lemma {:induction false} StopUnchanged(table: seq<int>, u: int, j: nat, fuel: nat, e: nat, v: int)
    requires j < |table| && EmptyWithin(table, j, fuel)
    requires e < |table| && table[e] == 0
    requires EmptyWithin(table[e := v], j, fuel)
    requires table[Stop(table, u, j, fuel)] != 0
    ensures Stop(table[e := v], u, j, fuel) == Stop(table, u, j, fuel)
    decreases fuel
  {
    if !(table[j] == 0 || HashBits(table[j]) == u) {
      EmptyWithinStep(table, j, fuel);
      EmptyWithinStep(table[e := v], j, fuel);
      StopUnchanged(table, u, NextSlot(j, |table|), fuel - 1, e, v);
    }
  }

  /** Filling the empty slot a probe stops at with the probed hash makes
      the probe stop there again. */
  lemma {:induction false} StopPlaced(table: seq<int>, u: int, j: nat, fuel: nat, v: int)
    requires j < |table| && EmptyWithin(table, j, fuel)
    requires table[Stop(table, u, j, fuel)] == 0 && HashBits(v) == u
    requires EmptyWithin(table[Stop(table, u, j, fuel) := v], j, fuel)
    ensures Stop(table[Stop(table, u, j, fuel) := v], u, j, fuel) == Stop(table, u, j, fuel)
    decreases fuel
  {
    var e := Stop(table, u, j, fuel);
    if !(table[j] == 0 || HashBits(table[j]) == u) {
      EmptyWithinStep(table, j, fuel);
      EmptyWithinStep(table[e := v], j, fuel);
      assert Stop(table, u, j, fuel) == Stop(table, u, NextSlot(j, |table|), fuel - 1);
      StopPlaced(table, u, NextSlot(j, |table|), fuel - 1, v);
    }
  }

  // ---------------------------------------------------------------------
  // KeywordIndexHashMap

  /** `KeywordIndexHashMap`: the slots and the keywords by index. */
  datatype IndexHashMap = IndexHashMap(hashArray: seq<int>, keywords: seq<Keyword>)

  /** The number of used slots. */
  function Used(table: seq<int>): (c: nat)
    ensures c <= |table|
  {
    if |table| == 0 then 0 else (if table[0] != 0 then 1 else 0) + Used(table[1..])
  }

  lemma {:induction false} UsedFill(table: seq<int>, e: nat, v: int)
    requires e < |table| && table[e] == 0 && v != 0
    ensures Used(table[e := v]) == Used(table) + 1
  {
    if e > 0 {
      assert table[e := v][1..] == table[1..][e - 1 := v];
      UsedFill(table[1..], e - 1, v);
    } else {
      assert table[e := v][1..] == table[1..];
    }
  }

  lemma {:induction false} NotFullHasEmpty(table: seq<int>)
    requires Used(table) < |table|
    ensures HasEmpty(table)
  {
    if table[0] != 0 {
      NotFullHasEmpty(table[1..]);
      var e :| 0 <= e < |table[1..]| && table[1..][e] == 0;
      assert table[e + 1] == 0;
    }
  }

  lemma {:induction false} EmptyTableUnused(n: nat)
    ensures Used(seq(n, _ => 0)) == 0
  {
    if n > 0 {
      assert seq(n, _ => 0)[1..] == seq(n - 1, _ => 0);
      EmptyTableUnused(n - 1);
    }
  }

  /** `insert`: probe from the hash's home slot; a slot holding the same
      hash is a duplicate key, and the first empty slot takes the keyword.
      Keywords are told apart by their hash alone. */
  function Insert(table: seq<int>, k: Keyword, i: nat): (r: Outcome<seq<int>>)
    requires HasEmpty(table) && i < TWO_31
    ensures r.Success? ==> |r.value| == |table| && Used(r.value) == Used(table) + 1
    ensures r.Success? ==> forall s | 0 <= s < |table| && table[s] != 0 :: r.value[s] == table[s]
    ensures r.Failure? ==> r.error.IllegalArgument?
    ensures r.Failure? ==> exists s | 0 <= s < |table| :: table[s] != 0 && HashBits(table[s]) == Bits(k.hasheq)
  {
    var s := StopAt(table, Bits(k.hasheq), Home(k.hasheq, |table|));
    if table[s] == 0 then
      PackUnpack(k.hasheq, i);
      UsedFill(table, s, Pack(k.hasheq, i));
      Success(table[s := Pack(k.hasheq, i)])
    else Failure(IllegalArgument("Duplicate key"))
  }

  /** `get`: probe from the hash's home slot to the slot holding the hash,
      whose index is the answer, or to an empty slot, for -1. */
  function Get(m: IndexHashMap, h: int32): (i: int)
    requires HasEmpty(m.hashArray)
    ensures i == -1 || exists s | 0 <= s < |m.hashArray| :: m.hashArray[s] != 0 && i == IndexBits(m.hashArray[s])
  {
    var table := m.hashArray;
    var s := StopAt(table, Bits(h), Home(h, |table|));
    if table[s] == 0 then -1 else IndexBits(table[s])
  }

  /** The state of the table after the first `i` keywords are inserted:
      a probe for each of them finds its own slot, every used slot holds
      one of their hashes and indices, and a slot is still empty. */
  predicate Inserted(table: seq<int>, keywords: seq<Keyword>, i: nat) {
    && i <= |keywords| < |table|
    && i < TWO_31
    && Used(table) == i
    && HasEmpty(table)
    && ProbesFind(table, keywords, i)
    && SlotsHold(table, keywords, i)
  }

  /** A probe for each of the first `i` keywords finds its own slot. */
  predicate ProbesFind(table: seq<int>, keywords: seq<Keyword>, i: nat)
    requires HasEmpty(table) && i <= |keywords| && i < TWO_31
  {
    forall idx | 0 <= idx < i ::
      table[StopAt(table, Bits(keywords[idx].hasheq), Home(keywords[idx].hasheq, |table|))]
      == Pack(keywords[idx].hasheq, idx)
  }

  /** Every used slot holds the hash of one of the first `i` keywords and
      an index below `i`. */
  predicate SlotsHold(table: seq<int>, keywords: seq<Keyword>, i: nat)
    requires i <= |keywords|
  {
    && (forall s | 0 <= s < |table| && table[s] != 0 ::
          exists idx | 0 <= idx < i :: HashBits(table[s]) == Bits(keywords[idx].hasheq))
    && (forall s | 0 <= s < |table| && table[s] != 0 :: 0 <= IndexBits(table[s]) < i)
  }

  /** Keywords `i` on have hashes different from every keyword before
      them. */
  predicate NewHashes(keywords: seq<Keyword>, i: nat) {
    forall a, b | 0 <= a < b < |keywords| && i <= b :: keywords[a].hasheq != keywords[b].hasheq
  }

  /** A probe for a hash no used slot holds ends on an empty slot. */
  lemma AbsentStopsEmpty(table: seq<int>, h: int32, j: nat)
    requires HasEmpty(table) && j < |table|
    requires forall s | 0 <= s < |table| && table[s] != 0 :: HashBits(table[s]) != Bits(h)
    ensures table[StopAt(table, Bits(h), j)] == 0
  {
  }

  /** Inserting a keyword whose hash is already present fails. */
  lemma InsertDuplicate(table: seq<int>, keywords: seq<Keyword>, i: nat, a: nat)
    requires Inserted(table, keywords, i) && i < |keywords|
    requires a < i && keywords[a].hasheq == keywords[i].hasheq
    ensures Insert(table, keywords[i], i).Failure?
  {
    PackUnpack(keywords[a].hasheq, a);
  }

  /** A keyword whose hash no earlier keyword has finds an empty slot. */
  lemma InsertNewSlot(table: seq<int>, keywords: seq<Keyword>, i: nat)
    requires Inserted(table, keywords, i) && i < |keywords|
    requires forall a | 0 <= a < i :: keywords[a].hasheq != keywords[i].hasheq
    ensures table[StopAt(table, Bits(keywords[i].hasheq), Home(keywords[i].hasheq, |table|))] == 0
  {
    var h := keywords[i].hasheq;
    forall s | 0 <= s < |table| && table[s] != 0
      ensures HashBits(table[s]) != Bits(h)
    {
      var idx :| 0 <= idx < i && HashBits(table[s]) == Bits(keywords[idx].hasheq);
      BitsInjective(keywords[idx].hasheq, h);
    }
    AbsentStopsEmpty(table, h, Home(h, |table|));
  }

  /** Filling the empty slot `e` keeps the probe for a hash whose own
      slot is already filled. */
  lemma ProbeKept(table: seq<int>, e: nat, v: int, g: int32, idx: nat)
    requires HasEmpty(table) && e < |table| && table[e] == 0 && v != 0
    requires HasEmpty(table[e := v]) && idx < TWO_31
    requires table[StopAt(table, Bits(g), Home(g, |table|))] == Pack(g, idx)
    ensures table[e := v][StopAt(table[e := v], Bits(g), Home(g, |table|))] == Pack(g, idx)
  {
    var j := Home(g, |table|);
    HasEmptyWithin(table, j);
    HasEmptyWithin(table[e := v], j);
    PackUnpack(g, idx);
    StopUnchanged(table, Bits(g), j, |table| - 1, e, v);
  }

  /** Filling the empty slot a probe stops at makes the probe find it. */
  lemma ProbePlaced(table: seq<int>, g: int32, i: nat)
    requires HasEmpty(table) && i < TWO_31
    requires table[StopAt(table, Bits(g), Home(g, |table|))] == 0
    requires HasEmpty(table[StopAt(table, Bits(g), Home(g, |table|)) := Pack(g, i)])
    ensures var t := table[StopAt(table, Bits(g), Home(g, |table|)) := Pack(g, i)];
      t[StopAt(t, Bits(g), Home(g, |table|))] == Pack(g, i)
  {
    var j := Home(g, |table|);
    var v := Pack(g, i);
    PackUnpack(g, i);
    HasEmptyWithin(table, j);
    HasEmptyWithin(table[StopAt(table, Bits(g), j) := v], j);
    StopPlaced(table, Bits(g), j, |table| - 1, v);
  }

  /** After filling the empty slot of keyword `i`'s probe, each probe
      for keywords `0..i` finds its own slot. */
  lemma ProbesAfterFill(table: seq<int>, keywords: seq<Keyword>, i: nat, e: nat, t: seq<int>)
    requires HasEmpty(table) && i < |keywords| && i + 1 < TWO_31
    requires ProbesFind(table, keywords, i)
    requires e == StopAt(table, Bits(keywords[i].hasheq), Home(keywords[i].hasheq, |table|)) && table[e] == 0
    requires t == table[e := Pack(keywords[i].hasheq, i)] && HasEmpty(t)
    ensures ProbesFind(t, keywords, i + 1)
  {
    var v := Pack(keywords[i].hasheq, i);
    PackUnpack(keywords[i].hasheq, i);
    forall idx | 0 <= idx < i + 1
      ensures t[StopAt(t, Bits(keywords[idx].hasheq), Home(keywords[idx].hasheq, |t|))] == Pack(keywords[idx].hasheq, idx)
    {
      if idx < i {
        ProbeKept(table, e, v, keywords[idx].hasheq, idx);
      } else {
        ProbePlaced(table, keywords[i].hasheq, i);
      }
    }
  }

  /** After filling the empty slot `e` with keyword `i`, every used slot
      holds the hash of one of keywords `0..i` and an index up to `i`. */
  lemma SlotsAfterFill(table: seq<int>, keywords: seq<Keyword>, i: nat, e: nat, t: seq<int>)
    requires i < |keywords| && i + 1 < TWO_31 && SlotsHold(table, keywords, i)
    requires e < |table| && table[e] == 0
    requires t == table[e := Pack(keywords[i].hasheq, i)]
    ensures SlotsHold(t, keywords, i + 1)
  {
    PackUnpack(keywords[i].hasheq, i);
    forall s | 0 <= s < |t| && t[s] != 0
      ensures exists idx | 0 <= idx < i + 1 :: HashBits(t[s]) == Bits(keywords[idx].hasheq)
    {
      if s == e {
        assert HashBits(t[s]) == Bits(keywords[i].hasheq);
      } else {
        var idx :| 0 <= idx < i && HashBits(table[s]) == Bits(keywords[idx].hasheq);
      }
    }
  }

  /** Inserting a keyword with a new hash succeeds; every earlier
      keyword's probe is kept and the new keyword's probe finds it. */
  lemma InsertNew(table: seq<int>, keywords: seq<Keyword>, i: nat)
    requires Inserted(table, keywords, i) && i < |keywords|
    requires forall a | 0 <= a < i :: keywords[a].hasheq != keywords[i].hasheq
    ensures Insert(table, keywords[i], i).Success?
    ensures i + 1 < TWO_31 ==> Inserted(Insert(table, keywords[i], i).value, keywords, i + 1)
  {
    var h := keywords[i].hasheq;
    var e := StopAt(table, Bits(h), Home(h, |table|));
    InsertNewSlot(table, keywords, i);
    var v := Pack(h, i);
    PackUnpack(h, i);
    var t := table[e := v];
    assert Insert(table, keywords[i], i) == Success(t);
    if i + 1 < TWO_31 {
      UsedFill(table, e, v);
      NotFullHasEmpty(t);
      ProbesAfterFill(table, keywords, i, e, t);
      SlotsAfterFill(table, keywords, i, e, t);
    }
  }

  /** Inserting the next keyword fails exactly when an earlier keyword
      has its hash. */
  lemma InsertFailsOnDuplicate(table: seq<int>, keywords: seq<Keyword>, i: nat)
    requires Inserted(table, keywords, i) && i < |keywords|
    ensures Insert(table, keywords[i], i).Failure?
      <==> exists a | 0 <= a < i :: keywords[a].hasheq == keywords[i].hasheq
  {
    if exists a | 0 <= a < i :: keywords[a].hasheq == keywords[i].hasheq {
      var a :| 0 <= a < i && keywords[a].hasheq == keywords[i].hasheq;
      InsertDuplicate(table, keywords, i, a);
    } else {
      InsertNew(table, keywords, i);
    }
  }

  lemma NewHashesStep(keywords: seq<Keyword>, i: nat)
    requires i < |keywords|
    ensures NewHashes(keywords, i)
      <==> (forall a | 0 <= a < i :: keywords[a].hasheq != keywords[i].hasheq) && NewHashes(keywords, i + 1)
  {
  }

  /** One step of the constructor's loop: inserting keyword `i` fails
      only on a repeated hash, and a success keeps the table's state. */
  lemma BuildStep(table: seq<int>, keywords: seq<Keyword>, i: nat)
    requires Inserted(table, keywords, i) && i < |keywords| < TWO_31
    ensures Insert(table, keywords[i], i).Failure? ==> !NewHashes(keywords, i)
    ensures Insert(table, keywords[i], i).Success? ==> (NewHashes(keywords, i) <==> NewHashes(keywords, i + 1))
    ensures Insert(table, keywords[i], i).Success? ==> Inserted(Insert(table, keywords[i], i).value, keywords, i + 1)
  {
    NewHashesStep(keywords, i);
    InsertFailsOnDuplicate(table, keywords, i);
    if Insert(table, keywords[i], i).Success? {
      InsertNew(table, keywords, i);
    }
  }

  /** The constructor's loop: insert the keywords from index `i` on. */
  function BuildFrom(table: seq<int>, keywords: seq<Keyword>, i: nat): (r: Outcome<seq<int>>)
    requires Inserted(table, keywords, i) && |keywords| < TWO_31
    ensures r.Success? <==> NewHashes(keywords, i)
    ensures r.Success? ==> Inserted(r.value, keywords, |keywords|)
    ensures r.Failure? ==> r.error.IllegalArgument?
    decreases |keywords| - i
  {
    if i == |keywords| then Success(table)
    else
      BuildStep(table, keywords, i);
      var r := Insert(table, keywords[i], i);
      if r.Failure? then Failure(r.error)
      else BuildFrom(r.value, keywords, i + 1)
  }

  /** `new KeywordIndexHashMap(keywords)`: an empty table of
      `hashArraySize` slots, then every keyword inserted with its index.
      It is built exactly when no two keywords share a hash. */
  function Build(keywords: seq<Keyword>): (r: Outcome<IndexHashMap>)
    requires |keywords| < TWO_31
    ensures r.Success? <==> forall a, b | 0 <= a < b < |keywords| :: keywords[a].hasheq != keywords[b].hasheq
    ensures r.Success? ==> r.value.keywords == keywords && Inserted(r.value.hashArray, keywords, |keywords|)
    ensures r.Failure? ==> r.error.IllegalArgument?
  {
    var table := seq(HashArraySize(|keywords|), _ => 0);
    EmptyTableUnused(|table|);
    NotFullHasEmpty(table);
    var t :- BuildFrom(table, keywords, 0);
    Success(IndexHashMap(t, keywords))
  }

  /** In a built map, `get` gives every keyword's index, and -1 for a hash
      no keyword has. */
  lemma GetBuilt(keywords: seq<Keyword>, h: int32)
    requires |keywords| < TWO_31 && Build(keywords).Success?
    ensures forall idx | 0 <= idx < |keywords| :: Get(Build(keywords).value, keywords[idx].hasheq) == idx
    ensures (forall idx | 0 <= idx < |keywords| :: keywords[idx].hasheq != h) ==> Get(Build(keywords).value, h) == -1
  {
    var m := Build(keywords).value;
    forall idx | 0 <= idx < |keywords|
      ensures Get(m, keywords[idx].hasheq) == idx
    {
      PackUnpack(keywords[idx].hasheq, idx);
    }
    if forall idx | 0 <= idx < |keywords| :: keywords[idx].hasheq != h {
      forall s | 0 <= s < |m.hashArray| && m.hashArray[s] != 0
        ensures HashBits(m.hashArray[s]) != Bits(h)
      {
        var idx :| 0 <= idx < |keywords| && HashBits(m.hashArray[s]) == Bits(keywords[idx].hasheq);
        BitsInjective(keywords[idx].hasheq, h);
      }
      AbsentStopsEmpty(m.hashArray, h, Home(h, |m.hashArray|));
    }
  }

  // ---------------------------------------------------------------------
  // PersistentRecord

  /** A map key: a keyword, or any other object. */
  datatype Key = KeywordKey(k: Keyword) | OtherKey

  /** A record: the shared hash map of its keywords and its values in key
      order, `None` standing for `UNDEFINED`. */
  datatype Record<V> = Record(hashMap: IndexHashMap, values: seq<Option<V>>)

  /** A record made by a `Factory`: the hash map built from its keywords,
      and one value per keyword. */
  predicate Valid<V>(r: Record<V>) {
    && |r.hashMap.keywords| < TWO_31
    && Build(r.hashMap.keywords) == Success(r.hashMap)
    && Shaped(r)
  }

  /** One value per keyword. */
  predicate Shaped<V>(r: Record<V>) {
    |r.values| == |r.hashMap.keywords|
  }

  /** `hashMap.get(key)` on a record's map. */
  function Lookup<V>(r: Record<V>, k: Keyword): (i: int)
    requires Valid(r)
    ensures -1 <= i < |r.values|
  {
    Get(r.hashMap, k.hasheq)
  }

  /** The index `get` gives a keyword is the one keyword with its hash,
      and there is none when no keyword has it. */
  lemma LookupFinds<V>(r: Record<V>, k: Keyword)
    requires Valid(r)
    ensures Lookup(r, k) >= 0 <==> exists idx | 0 <= idx < |r.values| :: r.hashMap.keywords[idx].hasheq == k.hasheq
    ensures Lookup(r, k) >= 0 ==> r.hashMap.keywords[Lookup(r, k)].hasheq == k.hasheq
  {
    var m := r.hashMap;
    GetBuilt(m.keywords, k.hasheq);
    if exists idx | 0 <= idx < |r.values| :: m.keywords[idx].hasheq == k.hasheq {
      var idx :| 0 <= idx < |r.values| && m.keywords[idx].hasheq == k.hasheq;
      assert Get(m, m.keywords[idx].hasheq) == idx;
    }
  }

  /** `valAt(key, notFound)`. */
  function ValAt<V>(r: Record<V>, key: Key, notFound: V): V
    requires Valid(r)
  {
    if !key.KeywordKey? then notFound
    else
      var i := Lookup(r, key.k);
      if i >= 0 && r.values[i].Some? then r.values[i].value else notFound
  }

  /** `containsKey`. */
  function ContainsKey<V>(r: Record<V>, key: Key): bool
    requires Valid(r)
  {
    key.KeywordKey? && Lookup(r, key.k) >= 0 && r.values[Lookup(r, key.k)].Some?
  }

  /** `entryAt`: the stored keyword and its value. */
  function EntryAt<V>(r: Record<V>, key: Key): Option<(Keyword, V)>
    requires Valid(r)
  {
    if !key.KeywordKey? then None
    else
      var i := Lookup(r, key.k);
      if i >= 0 && r.values[i].Some? then Some((r.hashMap.keywords[i], r.values[i].value)) else None
  }

  /** Looking a key up finds the value of the keyword with the key's hash,
      with an `UNDEFINED` value, an unknown keyword and a key that is not a
      keyword all absent. */
  lemma RecordLookup<V>(r: Record<V>, key: Key, notFound: V, idx: nat)
    requires Valid(r) && key.KeywordKey?
    requires idx < |r.values| && r.hashMap.keywords[idx].hasheq == key.k.hasheq
    ensures ContainsKey(r, key) <==> r.values[idx].Some?
    ensures ValAt(r, key, notFound) == (if r.values[idx].Some? then r.values[idx].value else notFound)
    ensures EntryAt(r, key) == (if r.values[idx].Some? then Some((r.hashMap.keywords[idx], r.values[idx].value)) else None)
  {
    LookupFinds(r, key.k);
    GetBuilt(r.hashMap.keywords, key.k.hasheq);
  }

  /** A key that is not the hash of any keyword is absent. */
  lemma RecordLookupAbsent<V>(r: Record<V>, key: Key, notFound: V)
    requires Valid(r)
    requires key.KeywordKey? ==> forall idx | 0 <= idx < |r.values| :: r.hashMap.keywords[idx].hasheq != key.k.hasheq
    ensures !ContainsKey(r, key)
    ensures ValAt(r, key, notFound) == notFound
    ensures EntryAt(r, key) == None
  {
    if key.KeywordKey? {
      LookupFinds(r, key.k);
    }
  }

  /** The three lookups agree: a key is contained exactly when it has an
      entry, whose value is the one `valAt` gives. */
  lemma LookupsAgree<V>(r: Record<V>, key: Key, notFound: V)
    requires Valid(r)
    ensures ContainsKey(r, key) <==> EntryAt(r, key).Some?
    ensures EntryAt(r, key).Some? ==> ValAt(r, key, notFound) == EntryAt(r, key).value.1
    ensures EntryAt(r, key).None? ==> ValAt(r, key, notFound) == notFound
  {
  }

  /** The defined values from index `i` on, with their keywords, in key
      order. */
  function DefinedFrom<V>(keywords: seq<Keyword>, values: seq<Option<V>>, i: nat): seq<(Keyword, V)>
    requires |values| == |keywords| && i <= |values|
    decreases |values| - i
  {
    if i == |values| then []
    else (if values[i].Some? then [(keywords[i], values[i].value)] else []) + DefinedFrom(keywords, values, i + 1)
  }

  /** The record's entries in key order. */
  function Entries<V>(r: Record<V>): seq<(Keyword, V)>
    requires Shaped(r)
  {
    DefinedFrom(r.hashMap.keywords, r.values, 0)
  }

  /** The constructor's loop: the number of values from index `i` on that
      are not `UNDEFINED`. */
  function CountFrom<V>(values: seq<Option<V>>, i: nat): (c: nat)
    requires i <= |values|
    ensures c <= |values| - i
    decreases |values| - i
  {
    if i == |values| then 0 else (if values[i].Some? then 1 else 0) + CountFrom(values, i + 1)
  }

  /** `count()`. */
  function Count<V>(r: Record<V>): nat {
    CountFrom(r.values, 0)
  }

  lemma {:induction false} CountFromEntries<V>(keywords: seq<Keyword>, values: seq<Option<V>>, i: nat)
    requires |values| == |keywords| && i <= |values|
    ensures CountFrom(values, i) == |DefinedFrom(keywords, values, i)|
    decreases |values| - i
  {
    if i < |values| {
      CountFromEntries(keywords, values, i + 1);
    }
  }

  /** The count is the number of entries. */
  lemma CountIsEntries<V>(r: Record<V>)
    requires Shaped(r)
    ensures Count(r) == |Entries(r)|
  {
    CountFromEntries(r.hashMap.keywords, r.values, 0);
  }

  /** Every entry is a keyword and value a lookup of that keyword finds. */
  lemma EntriesAreLookups<V>(r: Record<V>, n: nat, notFound: V)
    requires Valid(r) && n < |Entries(r)|
    ensures ContainsKey(r, KeywordKey(Entries(r)[n].0))
    ensures ValAt(r, KeywordKey(Entries(r)[n].0), notFound) == Entries(r)[n].1
  {
    var idx := EntryIndex(r.hashMap.keywords, r.values, 0, n);
    RecordLookup(r, KeywordKey(Entries(r)[n].0), notFound, idx);
  }

  /** The index of the `n`-th entry from `i` on. */
  function EntryIndex<V>(keywords: seq<Keyword>, values: seq<Option<V>>, i: nat, n: nat): (idx: nat)
    requires |values| == |keywords| && i <= |values| && n < |DefinedFrom(keywords, values, i)|
    ensures i <= idx < |values| && values[idx].Some?
    ensures DefinedFrom(keywords, values, i)[n] == (keywords[idx], values[idx].value)
    decreases |values| - i
  {
    if values[i].Some? && n == 0 then i
    else if values[i].Some? then EntryIndex(keywords, values, i + 1, n - 1)
    else EntryIndex(keywords, values, i + 1, n)
  }

  /** The first defined value from index `i` on: the skip loops of
      `next()` and of the `Seq` constructor. */
  function Skip<V>(values: seq<Option<V>>, i: nat): (j: nat)
    requires i <= |values| && CountFrom(values, i) > 0
    ensures i <= j < |values| && values[j].Some?
    ensures forall k | i <= k < j :: values[k].None?
    ensures CountFrom(values, j) == CountFrom(values, i)
    decreases |values| - i
  {
    if values[i].Some? then i else Skip(values, i + 1)
  }

  lemma {:induction false} SkipEntries<V>(keywords: seq<Keyword>, values: seq<Option<V>>, i: nat)
    requires |values| == |keywords| && i <= |values| && CountFrom(values, i) > 0
    ensures DefinedFrom(keywords, values, Skip(values, i)) == DefinedFrom(keywords, values, i)
    decreases |values| - i
  {
    if values[i].None? {
      SkipEntries(keywords, values, i + 1);
    }
  }

  lemma DefinedFromStep<V>(keywords: seq<Keyword>, values: seq<Option<V>>, i: nat)
    requires |values| == |keywords| && i < |values|
    ensures values[i].None? ==> DefinedFrom(keywords, values, i) == DefinedFrom(keywords, values, i + 1)
    ensures values[i].Some? ==> DefinedFrom(keywords, values, i) == [(keywords[i], values[i].value)] + DefinedFrom(keywords, values, i + 1)
  {
  }

  /** `iterator()` run to the end over the values of a record with `cnt`
      defined values: while fewer than `cnt` entries are out, skip
      `UNDEFINED` values and yield the next entry. */
  method IterateValues<V>(keywords: seq<Keyword>, values: seq<Option<V>>, cnt: nat) returns (out: seq<(Keyword, V)>)
    requires |values| == |keywords| && cnt == CountFrom(values, 0)
    ensures out == DefinedFrom(keywords, values, 0)
  {
    var i := 0;
    var c := 0;
    out := [];
    while c < cnt
      invariant 0 <= i <= |values| && c <= cnt
      invariant CountFrom(values, i) == cnt - c
      invariant out + DefinedFrom(keywords, values, i) == DefinedFrom(keywords, values, 0)
      decreases cnt - c
    {
      while values[i].None?
        invariant i < |values|
        invariant CountFrom(values, i) == cnt - c
        invariant out + DefinedFrom(keywords, values, i) == DefinedFrom(keywords, values, 0)
        decreases |values| - i
      {
        DefinedFromStep(keywords, values, i);
        i := i + 1;
      }
      DefinedFromStep(keywords, values, i);
      var e := (keywords[i], values[i].value);
      assert out + [e] + DefinedFrom(keywords, values, i + 1) == out + DefinedFrom(keywords, values, i);
      out := out + [e];
      i := i + 1;
      c := c + 1;
    }
    CountFromEntries(keywords, values, i);
  }

  /** A record's iterator yields its entries in key order. */
  method Iterate<V>(r: Record<V>) returns (out: seq<(Keyword, V)>)
    requires Valid(r)
    ensures out == Entries(r)
  {
    out := IterateValues(r.hashMap.keywords, r.values, Count(r));
  }

  /** A `Seq` node: the index of its entry and the number of entries
      before it. */
  datatype SeqNode = SeqNode(i: nat, c: nat)

  /** `new Seq(keywords, orderedValues, cnt, i, c)`: the constructor skips
      to the first defined value. */
  function NewSeq<V>(r: Record<V>, i: nat, c: nat): (s: SeqNode)
    requires Shaped(r) && i <= |r.values| && CountFrom(r.values, i) > 0
    ensures s.i < |r.values| && r.values[s.i].Some?
  {
    SeqNode(Skip(r.values, i), c)
  }

  /** `seq()`: no sequence for an empty record. */
  function RecordSeq<V>(r: Record<V>): (s: Option<SeqNode>)
    requires Shaped(r)
    ensures s.Some? <==> |Entries(r)| > 0
  {
    CountIsEntries(r);
    if Count(r) > 0 then Some(NewSeq(r, 0, 0)) else None
  }

  /** A node the record's sequence can reach: its entry is defined and
      the values after it hold the rest of the count. */
  predicate Reachable<V>(r: Record<V>, s: SeqNode)
    requires Shaped(r)
  {
    && s.i < |r.values| && r.values[s.i].Some? && s.c < Count(r)
    && CountFrom(r.values, s.i) == Count(r) - s.c
  }

  /** `first()`. */
  function First<V>(r: Record<V>, s: SeqNode): (Keyword, V)
    requires Shaped(r) && Reachable(r, s)
  {
    (r.hashMap.keywords[s.i], r.values[s.i].value)
  }

  /** `next()`: the node after this one, none after the last entry. */
  function Next<V>(r: Record<V>, s: SeqNode): (n: Option<SeqNode>)
    requires Shaped(r) && Reachable(r, s)
    ensures n.Some? ==> Reachable(r, n.value) && n.value.c == s.c + 1
  {
    if s.c + 1 < Count(r) then Some(NewSeq(r, s.i + 1, s.c + 1)) else None
  }

  /** `count()` of a node. */
  function SeqCount<V>(r: Record<V>, s: SeqNode): int
    requires Shaped(r)
  {
    Count(r) - s.c
  }

  /** The entries a node's sequence holds: its first, then those of its
      next nodes. */
  function Elements<V>(r: Record<V>, s: SeqNode): seq<(Keyword, V)>
    requires Shaped(r) && Reachable(r, s)
    decreases Count(r) - s.c
  {
    [First(r, s)] + (match Next(r, s) case None => [] case Some(n) => Elements(r, n))
  }

  lemma {:induction false} ElementsFrom<V>(r: Record<V>, s: SeqNode)
    requires Shaped(r) && Reachable(r, s)
    ensures Elements(r, s) == DefinedFrom(r.hashMap.keywords, r.values, s.i)
    ensures |Elements(r, s)| == SeqCount(r, s)
    decreases Count(r) - s.c
  {
    var keywords := r.hashMap.keywords;
    var values := r.values;
    CountFromEntries(keywords, values, s.i + 1);
    match Next(r, s)
    case None =>
      assert DefinedFrom(keywords, values, s.i + 1) == [];
    case Some(n) =>
      SkipEntries(keywords, values, s.i + 1);
      ElementsFrom(r, n);
  }

  /** The record's sequence holds its entries in key order, and each node's
      `count()` is the number of entries from it on. */
  lemma SeqIsEntries<V>(r: Record<V>)
    requires Shaped(r) && RecordSeq(r).Some?
    ensures Reachable(r, RecordSeq(r).value)
    ensures Elements(r, RecordSeq(r).value) == Entries(r)
    ensures SeqCount(r, RecordSeq(r).value) == Count(r)
  {
    SkipEntries(r.hashMap.keywords, r.values, 0);
    ElementsFrom(r, RecordSeq(r).value);
  }
}
