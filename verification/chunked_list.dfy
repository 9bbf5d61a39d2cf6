/** `ChunkedPersistentList`: a list stored as a chain of 32-slot nodes.
    A transient builder `conj`s values onto the tail node, opening a new
    node when the tail is full; `persistent` turns it into a list (or
    `null` when it is empty). The list is a position in the chain — the
    node it is in (`head`, with `idx` nodes before it) and the `offset`
    inside that node — and walks the values with `first` and `next`. */
module ChunkedLists {
  import opened Wrappers
  import opened Seqs

  /** The number of slots in a node. */
  const NODE_SIZE: nat := 32

  /** Nodes as a chain holds them: none empty, none over 32 values, and all
      but the last full. */
  predicate Chained<T>(nodes: seq<seq<T>>) {
    && (forall k | 0 <= k < |nodes| :: 0 < |nodes[k]| <= NODE_SIZE)
    && (forall k | 0 <= k < |nodes| - 1 :: |nodes[k]| == NODE_SIZE)
  }

  lemma ChainedSuffix<T>(nodes: seq<seq<T>>, k: nat)
    requires Chained(nodes) && k <= |nodes|
    ensures Chained(nodes[k..])
  {
    assert forall j | 0 <= j < |nodes| - k :: nodes[k..][j] == nodes[k + j];
  }

  // ---------------------------------------------------------------------
  // The transient builder

  /** `TransientChunkedList`: the nodes from `head` to `tail`, and `cnt`. */
  datatype Transient<T> = Transient(nodes: seq<seq<T>>, cnt: nat)

  predicate ValidTransient<T>(t: Transient<T>) {
    Chained(t.nodes) && t.cnt == |Flatten(t.nodes)|
  }

  /** `newEmptyTransient`. */
  function NewTransient<T>(): (t: Transient<T>)
    ensures ValidTransient(t) && Flatten(t.nodes) == []
  {
    Transient([], 0)
  }

  /** `conj`: adds `v` to the tail node, or to a new node when there is no
      tail or the tail holds 32 values. */
  function Conj<T>(t: Transient<T>, v: T): (r: Transient<T>)
    requires ValidTransient(t)
    ensures ValidTransient(r)
    ensures Flatten(r.nodes) == Flatten(t.nodes) + [v]
    ensures |r.nodes| == if |t.nodes| == 0 || |t.nodes[|t.nodes| - 1]| == NODE_SIZE
                         then |t.nodes| + 1 else |t.nodes|
  {
    var n := |t.nodes|;
    if n == 0 then
      FlattenSnoc(t.nodes, [v]);
      Transient([[v]], 1)
    else if |t.nodes[n - 1]| < NODE_SIZE then
      var r := Transient(t.nodes[..n - 1] + [t.nodes[n - 1] + [v]], t.cnt + 1);
      assert r.nodes[..n - 1] == t.nodes[..n - 1];
      assert Flatten(t.nodes) == Flatten(t.nodes[..n - 1]) + t.nodes[n - 1];
      FlattenSnoc(t.nodes[..n - 1], t.nodes[n - 1] + [v]);
      r
    else
      FlattenSnoc(t.nodes, [v]);
      Transient(t.nodes + [[v]], t.cnt + 1)
  }

  /** `conj` of each value in turn. */
  function ConjAll<T>(t: Transient<T>, vs: seq<T>): (r: Transient<T>)
    requires ValidTransient(t)
    ensures ValidTransient(r) && Flatten(r.nodes) == Flatten(t.nodes) + vs
    decreases |vs|
  {
    if |vs| == 0 then t
    else
      var r := ConjAll(Conj(t, vs[0]), vs[1..]);
      assert [vs[0]] + vs[1..] == vs;
      r
  }

  // ---------------------------------------------------------------------
  // The persistent list

  /** A list: the nodes from `head` to the last, `cnt` (the values in the
      whole chain), `idx` and `offset`. */
  datatype ChunkedList<T> = ChunkedList(nodes: seq<seq<T>>, cnt: int, idx: nat, offset: nat)

  /** A list position the builder and `next` produce: inside the head
      node, which has `idx` full nodes before it in a chain of `cnt`
      values. */
  predicate ValidList<T>(l: ChunkedList<T>) {
    && |l.nodes| > 0 && Chained(l.nodes)
    && l.offset < |l.nodes[0]|
    && l.cnt == NODE_SIZE * l.idx + |Flatten(l.nodes)|
  }

  /** The values from the current position to the end. */
  function Elements<T>(l: ChunkedList<T>): seq<T>
    requires ValidList(l)
  {
    l.nodes[0][l.offset..] + Flatten(l.nodes[1..])
  }

  /** `persistent`: `null` for an empty builder, otherwise the list at the
      head of the chain. */
  function Persistent<T>(t: Transient<T>): (r: Option<ChunkedList<T>>)
    requires ValidTransient(t)
    ensures r.None? <==> Flatten(t.nodes) == []
    ensures r.Some? ==> ValidList(r.value) && Elements(r.value) == Flatten(t.nodes)
  {
    if t.cnt == 0 then None
    else
      FlattenCons(t.nodes);
      Some(ChunkedList(t.nodes, t.cnt, 0, 0))
  }

  /** `count`: what is left of the chain's values once the `idx` full
      nodes and the `offset` values before the position are skipped. */
  function Count<T>(l: ChunkedList<T>): (n: int)
    requires ValidList(l)
    ensures n == |Elements(l)| && n > 0
  {
    FlattenCons(l.nodes);
    l.cnt - (NODE_SIZE * l.idx + l.offset)
  }

  /** `first`: the value at the position. */
  function First<T>(l: ChunkedList<T>): (v: T)
    requires ValidList(l)
    ensures v == Elements(l)[0]
  {
    l.nodes[0][l.offset]
  }

  /** `chunkedFirst`: the rest of the head node. */
  function ChunkedFirst<T>(l: ChunkedList<T>): (r: seq<T>)
    requires ValidList(l)
    ensures 0 < |r| && r <= Elements(l)
  {
    l.nodes[0][l.offset..]
  }

  /** `chunkedNext`: the start of the next node, or `null` after the last. */
  function ChunkedNext<T>(l: ChunkedList<T>): (r: Option<ChunkedList<T>>)
    requires ValidList(l)
    ensures r.None? <==> |l.nodes| == 1
    ensures r.Some? ==>
      ValidList(r.value) && r.value.idx == l.idx + 1 && Elements(l) == ChunkedFirst(l) + Elements(r.value)
  {
    if |l.nodes| > 1 then
      var r := ChunkedList(l.nodes[1..], l.cnt, l.idx + 1, 0);
      FlattenCons(l.nodes);
      FlattenCons(l.nodes[1..]);
      ChainedSuffix(l.nodes, 1);
      assert l.nodes[1..][0] == l.nodes[1] && l.nodes[1..][1..] == l.nodes[2..];
      Some(r)
    else None
  }

  /** `next`: the following position in the head node, or the next node. */
  function Next<T>(l: ChunkedList<T>): (r: Option<ChunkedList<T>>)
    requires ValidList(l)
    ensures r.None? <==> |Elements(l)| == 1
    ensures r.Some? ==> ValidList(r.value) && Elements(r.value) == Elements(l)[1..]
  {
    if l.offset + 1 < |l.nodes[0]| then
      var r := l.(offset := l.offset + 1);
      assert l.nodes[0][l.offset..] == [l.nodes[0][l.offset]] + l.nodes[0][l.offset + 1..];
      Some(r)
    else
      if |l.nodes| > 1 then
        FlattenCons(l.nodes[1..]);
        ChunkedNext(l)
      else
        assert Flatten(l.nodes[1..]) == [];
        ChunkedNext(l)
  }

  /** The values `first` and `next` walk through, starting at `l`. */
  function Walk<T>(l: ChunkedList<T>): (r: seq<T>)
    requires ValidList(l)
    decreases |Elements(l)|
  {
    match Next(l)
    case None => [First(l)]
    case Some(l1) => [First(l)] + Walk(l1)
  }

  /** Walking a list visits its values in order. */
  lemma {:induction false} WalkIsElements<T>(l: ChunkedList<T>)
    requires ValidList(l)
    ensures Walk(l) == Elements(l)
    decreases |Elements(l)|
  {
    match Next(l)
    case None =>
    case Some(l1) =>
      WalkIsElements(l1);
  }

  /** The values of a list that may be `null`. */
  function Values<T>(o: Option<ChunkedList<T>>): seq<T> {
    match o
    case None => []
    case Some(l) => if ValidList(l) then Walk(l) else []
  }

  /** What a reader builds from `vs`: `conj` of each, then `persistent`. */
  function Collect<T>(vs: seq<T>): Option<ChunkedList<T>> {
    Persistent(ConjAll(NewTransient(), vs))
  }

  /** Collecting values and walking the result gives them back in
      insertion order; nothing collected gives `null`. */
  lemma CollectRoundTrip<T>(vs: seq<T>)
    ensures Collect(vs).None? <==> |vs| == 0
    ensures Values(Collect(vs)) == vs
    ensures Collect(vs).Some? ==> Count(Collect(vs).value) == |vs|
  {
    if Collect(vs).Some? {
      WalkIsElements(Collect(vs).value);
    }
  }

  /** A builder fed more than 32 values has opened a second node, and the
      first node holds the first 32 values. */
  lemma NodesOfThirtyThree<T>(vs: seq<T>)
    requires |vs| == NODE_SIZE + 1
    ensures var t := ConjAll(NewTransient(), vs);
      |t.nodes| == 2 && t.nodes[0] == vs[..NODE_SIZE] && t.nodes[1] == [vs[NODE_SIZE]]
  {
    var t := ConjAll(NewTransient(), vs);
    var n := |Flatten(t.nodes)|;
    assert n == NODE_SIZE + 1;
    FlattenCons(t.nodes);
    FlattenCons(t.nodes[1..]);
    assert |t.nodes| == 2;
    assert Flatten(t.nodes[2..]) == [];
    assert Flatten(t.nodes) == vs;
    assert t.nodes[1..][0] == t.nodes[1] && t.nodes[1..][1..] == t.nodes[2..];
    assert vs == t.nodes[0] + t.nodes[1];
    assert |t.nodes[0]| == NODE_SIZE;
    assert vs[..NODE_SIZE] == t.nodes[0];
  }
}
