/** `Mangle`: the per-record functions a reader applies (map, keep and
    filter, each optionally given the record index) and their composition.
    A function result is either a value or the `REMOVED` sentinel, and a
    composition stops at the first `REMOVED`. */
module Mangle {
  import opened Wrappers

  /** A Clojure value: `nil`, a boolean, or any other value `T`. */
  datatype Obj<T> = Nil | Bool(b: bool) | Val(v: T)

  /** What a mangle function returns: the `REMOVED` sentinel or a value. */
  datatype Out<T> = Removed | Kept(obj: Obj<T>)

  /** `Mangle.Fn`: called with the record index and the record. */
  type Fn<!T> = (int, Obj<T>) -> Out<T>

  /** `isFiltered`: whether the record survived. */
  predicate IsFiltered<T>(o: Out<T>) {
    o != Removed
  }

  /** `RT.booleanCast`: everything but `nil` and `false` is true. */
  predicate Truthy<T>(o: Obj<T>) {
    !(o.Nil? || o == Bool(false))
  }

  /** `getMapFn`: the user function's result, never `REMOVED`. */
  function MapFn<T(!new)>(f: Obj<T> -> Obj<T>): (r: Fn<T>)
    ensures forall i, o :: r(i, o).Kept? && r(i, o).obj == f(o)
  {
    (i, o) => Kept(f(o))
  }

  /** `getMapIndexedFn`. */
  function MapIndexedFn<T(!new)>(f: (int, Obj<T>) -> Obj<T>): (r: Fn<T>)
    ensures forall i, o :: r(i, o).Kept? && r(i, o).obj == f(i, o)
  {
    (i, o) => Kept(f(i, o))
  }

  /** `nil` becomes `REMOVED`. */
  function DropNil<T>(x: Obj<T>): (r: Out<T>)
    ensures r.Removed? <==> x.Nil?
    ensures r.Kept? ==> r.obj == x
  {
    if x.Nil? then Removed else Kept(x)
  }

  /** `getKeepFn`: removes the record exactly when the user function
      returns `nil`. */
  function KeepFn<T(!new)>(f: Obj<T> -> Obj<T>): (r: Fn<T>)
    ensures forall i, o :: (r(i, o).Removed? <==> f(o).Nil?) && (r(i, o).Kept? ==> r(i, o).obj == f(o))
  {
    (i, o) => DropNil(f(o))
  }

  /** `getKeepIndexedFn`. */
  function KeepIndexedFn<T(!new)>(f: (int, Obj<T>) -> Obj<T>): (r: Fn<T>)
    ensures forall i, o :: (r(i, o).Removed? <==> f(i, o).Nil?) && (r(i, o).Kept? ==> r(i, o).obj == f(i, o))
  {
    (i, o) => DropNil(f(i, o))
  }

  /** The record itself when `test` holds, else `REMOVED`. */
  function KeepIf<T>(test: bool, o: Obj<T>): (r: Out<T>)
    ensures r.Kept? <==> test
    ensures r.Kept? ==> r.obj == o
  {
    if test then Kept(o) else Removed
  }

  /** `getFilterFn`: keeps the record unchanged exactly when the predicate
      is truthy. */
  function FilterFn<T(!new)>(f: Obj<T> -> Obj<T>): (r: Fn<T>)
    ensures forall i, o :: (r(i, o).Kept? <==> Truthy(f(o))) && (r(i, o).Kept? ==> r(i, o).obj == o)
  {
    (i, o) => KeepIf(Truthy(f(o)), o)
  }

  /** `getFilterIndexedFn`. */
  function FilterIndexedFn<T(!new)>(f: (int, Obj<T>) -> Obj<T>): (r: Fn<T>)
    ensures forall i, o :: (r(i, o).Kept? <==> Truthy(f(i, o))) && (r(i, o).Kept? ==> r(i, o).obj == o)
  {
    (i, o) => KeepIf(Truthy(f(i, o)), o)
  }

  // ---------------------------------------------------------------------
  // Composition

  /** The meaning of a composition: the functions applied in order, each
      to the previous result, stopping at `REMOVED`. */
  function Pipeline<T>(fns: seq<Fn<T>>, i: int, o: Obj<T>): Out<T> {
    if |fns| == 0 then Kept(o)
    else
      var before := Pipeline(fns[..|fns| - 1], i, o);
      if before.Removed? then Removed else fns[|fns| - 1](i, before.obj)
  }

  /** `composeFns(f, g)`. */
  function Compose2<T>(f: Fn<T>, g: Fn<T>): Fn<T> {
    (i, o) => var ret := f(i, o); if ret != Removed then g(i, ret.obj) else ret
  }

  /** `composeFns(f, g, h)`. */
  function Compose3<T>(f: Fn<T>, g: Fn<T>, h: Fn<T>): Fn<T> {
    (i, o) =>
      var ret := f(i, o);
      if ret != Removed then
        var ret2 := g(i, ret.obj);
        if ret2 != Removed then h(i, ret2.obj) else ret2
      else ret
  }

  /** The loop of `composeFns(List)` from function `k` on, with `ret` the
      result so far. */
  function RunFrom<T>(fns: seq<Fn<T>>, k: nat, i: int, ret: Out<T>): Out<T>
    requires k <= |fns|
    decreases |fns| - k
  {
    if k == |fns| || ret == Removed then ret else RunFrom(fns, k + 1, i, fns[k](i, ret.obj))
  }

  /** `composeFns(List)`. */
  function ComposeList<T>(fns: seq<Fn<T>>): Fn<T> {
    (i, o) => RunFrom(fns, 0, i, Kept(o))
  }

  /** `compose`: `null` for no functions, the function itself for one, and
      the specialised compositions for two and three. */
  function Compose<T>(fns: seq<Fn<T>>): (r: Option<Fn<T>>)
    ensures r.None? <==> |fns| == 0
    ensures |fns| == 1 ==> r == Some(fns[0])
  {
    match |fns|
    case 0 => None
    case 1 => Some(fns[0])
    case 2 => Some(Compose2(fns[0], fns[1]))
    case 3 => Some(Compose3(fns[0], fns[1], fns[2]))
    case _ => Some(ComposeList(fns))
  }

  /** The loop from `k` on finishes what the prefix before `k` started. */
  lemma {:induction false} RunFromPipeline<T>(fns: seq<Fn<T>>, k: nat, i: int, o: Obj<T>)
    requires k <= |fns|
    ensures RunFrom(fns, k, i, Pipeline(fns[..k], i, o)) == Pipeline(fns, i, o)
    decreases |fns| - k
  {
    if k < |fns| {
      var ret := Pipeline(fns[..k], i, o);
      assert fns[..k + 1][..k] == fns[..k];
      assert Pipeline(fns[..k + 1], i, o) == if ret == Removed then Removed else fns[k](i, ret.obj);
      RunFromPipeline(fns, k + 1, i, o);
      if ret == Removed {
        RemovedStays(fns, k, i, o);
      }
    } else {
      assert fns[..k] == fns;
    }
  }

  /** Once a prefix removes the record, every longer prefix does. */
  lemma {:induction false} RemovedStays<T>(fns: seq<Fn<T>>, k: nat, i: int, o: Obj<T>)
    requires k <= |fns| && Pipeline(fns[..k], i, o) == Removed
    ensures Pipeline(fns, i, o) == Removed
    decreases |fns| - k
  {
    if k < |fns| {
      assert fns[..k + 1][..k] == fns[..k];
      RemovedStays(fns, k + 1, i, o);
    } else {
      assert fns[..k] == fns;
    }
  }

  /** Every composition `compose` builds is the pipeline of its functions. */
  lemma ComposeIsPipeline<T>(fns: seq<Fn<T>>, i: int, o: Obj<T>)
    requires |fns| > 0
    ensures Compose(fns).Some? && Compose(fns).value(i, o) == Pipeline(fns, i, o)
  {
    if |fns| == 1 {
      assert fns[..0] == [];
    } else if |fns| == 2 {
      assert fns[..1][..0] == [];
    } else if |fns| == 3 {
      assert fns[..2][..1][..0] == [];
    } else {
      assert fns[..0] == [];
      RunFromPipeline(fns, 0, i, o);
    }
  }

  /** A composed function stops at the first `REMOVED`: when the first `k`
      functions remove the record, the rest are not applied. */
  lemma ComposeShortCircuits<T>(fns: seq<Fn<T>>, k: nat, i: int, o: Obj<T>)
    requires 0 < k <= |fns| && Pipeline(fns[..k], i, o) == Removed
    ensures !IsFiltered(Compose(fns).value(i, o))
  {
    ComposeIsPipeline(fns, i, o);
    RemovedStays(fns, k, i, o);
  }
}
