/** The references of the trie: short encodings stay inline, the others are hashed into the store
    (mpt.cpp:479-500). */
module Merkle {
  import opened ByteStrings
  import opened Hashing
  import opened Nodes
  import opened Paths
  import opened Tries
  import opened References

  const INLINE_LIMIT := 32

  /** The reference that `PutToStorage` returns for a node. */
  function Refer(s: Shape): (ref: Reference)
  {
    var encoded := EncodeShape(s);
    if |encoded| < INLINE_LIMIT then encoded else BasicHash(encoded)
  }

  /** The root bytes of a trie: a function of the trie alone. */
  function RefOf(t: Trie): (ref: Reference)
  {
    TreeRef(Refer, t)
  }

  /** The hash under which the encoding of a node is stored. */
  function HashKey(s: Shape): (k: Reference)
  {
    BasicHash(EncodeShape(s))
  }

  /** Two encodings too long to stay inline that have the same key. */
  predicate Collide(a: Shape, b: Shape, encode: Shape -> Bytes, key: Shape -> Reference)
  {
    |encode(a)| >= INLINE_LIMIT && |encode(b)| >= INLINE_LIMIT && key(a) == key(b)
  }

  ghost function Collisions(log: set<Shape>, encode: Shape -> Bytes, key: Shape -> Reference)
    : (pairs: set<(Shape, Shape)>)
  {
    set a, b | a in log && b in log && a != b && Collide(a, b, encode, key) :: (a, b)
  }

  /** No two different nodes among those written collide. `BasicHash` does collide, so this is a
      hypothesis on runs. */
  ghost predicate CollisionFree(log: set<Shape>)
  {
    Collisions(log, EncodeShape, HashKey) == {}
  }

  lemma NoCollision(log: set<Shape>, a: Shape, b: Shape, encode: Shape -> Bytes, key: Shape -> Reference)
    requires Collisions(log, encode, key) == {} && a in log && b in log && Collide(a, b, encode, key)
    ensures a == b
  {
    assert a != b ==> (a, b) in Collisions(log, encode, key);
  }

  lemma FewerCollisionsBy(log: set<Shape>, more: set<Shape>, encode: Shape -> Bytes, key: Shape -> Reference)
    requires log <= more
    ensures Collisions(log, encode, key) <= Collisions(more, encode, key)
  {
  }

  /** Fewer writes collide no more. */
  lemma FewerCollisions(log: set<Shape>, more: set<Shape>)
    requires CollisionFree(more) && log <= more
    ensures CollisionFree(log)
  {
    FewerCollisionsBy(log, more, EncodeShape, HashKey);
  }

  lemma ReferIsUnambiguous(log: set<Shape>)
    requires CollisionFree(log)
    ensures Unambiguous(Refer, log)
  {
    forall a, b | a in log && b in log && Encodable(a) && Encodable(b) && Refer(a) == Refer(b) ensures a == b {
      if |EncodeShape(a)| < INLINE_LIMIT {
        EncodingIsInjective(a, b);
      } else {
        NoCollision(log, a, b, EncodeShape, HashKey);
      }
    }
  }

  lemma ReferIsBounded()
    ensures Bounded(Refer)
  {
  }

  /** Equal root bytes mean equal tries when none of the nodes involved collide. */
  lemma RootCommits(t: Trie, u: Trie, n: int, log: set<Shape>)
    requires WellFormed(t, n) && WellFormed(u, n) && n <= MAX_PATH
    requires ShapesOf(Refer, t) <= log && ShapesOf(Refer, u) <= log && CollisionFree(log)
    requires RefOf(t) == RefOf(u)
    ensures t == u
  {
    ReferIsUnambiguous(log);
    ReferIsBounded();
    SameRootSameTrie(Refer, t, u, n, log);
  }

  // ---- the store ---------------------------------------------------------------------------

  /** Under key `k` the store holds the encoding of `s`. */
  predicate StoredAs(nodes: map<Reference, Bytes>, k: Reference, s: Shape,
                     encode: Shape -> Bytes, key: Shape -> Reference)
  {
    k in nodes && nodes[k] == encode(s) && |nodes[k]| >= INLINE_LIMIT && k == key(s)
  }

  /** The store holds, under each key, the encoding of a node that was written, and nothing else. */
  ghost predicate BackedBy(nodes: map<Reference, Bytes>, log: set<Shape>,
                           encode: Shape -> Bytes, key: Shape -> Reference)
  {
    && (forall s :: s in log && |encode(s)| >= INLINE_LIMIT ==> key(s) in nodes)
    && (forall k :: k in nodes ==> exists s :: s in log && StoredAs(nodes, k, s, encode, key))
  }

  ghost predicate Backed(nodes: map<Reference, Bytes>, log: set<Shape>)
  {
    BackedBy(nodes, log, EncodeShape, HashKey)
  }

  /** The assignment of `PutToStorage` to the store. */
  function Stored(nodes: map<Reference, Bytes>, s: Shape): (after: map<Reference, Bytes>)
  {
    var encoded := EncodeShape(s);
    if |encoded| < INLINE_LIMIT then nodes else nodes[BasicHash(encoded) := encoded]
  }

  lemma StoredIsBackedBy(nodes: map<Reference, Bytes>, log: set<Shape>, s: Shape, log': set<Shape>,
                         encode: Shape -> Bytes, key: Shape -> Reference, after: map<Reference, Bytes>)
    requires BackedBy(nodes, log, encode, key) && log' == log + {s}
    requires after == if |encode(s)| < INLINE_LIMIT then nodes else nodes[key(s) := encode(s)]
    ensures BackedBy(after, log', encode, key)
  {
    forall k | k in after ensures exists u :: u in log' && StoredAs(after, k, u, encode, key) {
      if k in nodes && after[k] == nodes[k] {
        var u :| u in log && StoredAs(nodes, k, u, encode, key);
        assert StoredAs(after, k, u, encode, key);
      } else {
        assert StoredAs(after, k, s, encode, key);
      }
    }
  }

  /** `GetFromStorage` */
  function Fetch(nodes: map<Reference, Bytes>, ref: Reference): (r: Result<Node>)
    ensures r.Ok? ==> r.value.Valid()
  {
    if |ref| < INLINE_LIMIT then DecodeNode(ref)
    else if ref !in nodes then Err(NodeNotFound)
    else DecodeNode(nodes[ref])
  }

  predicate ReadsBack(nodes: map<Reference, Bytes>, s: Shape)
  {
    var r := Fetch(nodes, Refer(s));
    r.Ok? && r.value.Shape() == s
  }

  /** Whatever has been written before reads back as the node it was, on both sides of the boundary. */
  lemma FetchReturnsNode(nodes: map<Reference, Bytes>, log: set<Shape>, s: Shape)
    requires Backed(nodes, log) && CollisionFree(log) && s in log && Encodable(s)
    ensures ReadsBack(nodes, s)
  {
    NodeRoundTrip(s);
    var e := EncodeShape(s);
    if |e| >= INLINE_LIMIT {
      assert HashKey(s) in nodes;
      var u :| u in log && StoredAs(nodes, HashKey(s), u, EncodeShape, HashKey);
      NoCollision(log, s, u, EncodeShape, HashKey);
    }
  }

  /** What was written last reads back, collisions or not. */
  lemma JustStoredReadsBack(nodes: map<Reference, Bytes>, s: Shape)
    requires Encodable(s)
    ensures ReadsBack(Stored(nodes, s), s)
  {
    NodeRoundTrip(s);
  }

  function Reader(nodes: map<Reference, Bytes>): (good: Shape -> bool)
  {
    s => ReadsBack(nodes, s)
  }

  /** Every node below the reference to `t` can be read from the store. */
  ghost predicate Readable(f: Scheme, nodes: map<Reference, Bytes>, t: Trie)
  {
    AllNodes(f, t, Reader(nodes))
  }

  /** No reference dangles below a trie whose nodes were all written, however much was written since:
      every root of the past still stands for the same trie. */
  lemma PastRootsPersist(nodes: map<Reference, Bytes>, log: set<Shape>, t: Trie, n: int)
    requires Backed(nodes, log) && CollisionFree(log) && ShapesOf(Refer, t) <= log
    requires WellFormed(t, n) && n <= MAX_PATH
    ensures Readable(Refer, nodes, t)
  {
    ReferIsBounded();
    forall s | s in log && Encodable(s) ensures ReadsBack(nodes, s) {
      FetchReturnsNode(nodes, log, s);
    }
    AllWritten(Refer, t, n, log, Reader(nodes));
  }

  // ---- the history of writes -------------------------------------------------------------

  /** The store after the nodes of `h` have been put into it, in order. */
  function StoreOf(h: seq<Shape>): (nodes: map<Reference, Bytes>)
    decreases |h|, 1
  {
    if h == [] then map[] else LastStored(h)
  }

  function LastStored(h: seq<Shape>): (nodes: map<Reference, Bytes>)
    requires h != []
    decreases |h|, 0
  {
    Stored(StoreOf(h[..|h| - 1]), h[|h| - 1])
  }

  /** The effect and the result of `PutToStorage`, in terms of the encoding. */
  lemma PutEffect(h: seq<Shape>, s: Shape, encoded: Bytes)
    requires encoded == EncodeShape(s)
    ensures StoreOf(h + [s]) ==
            if |encoded| < INLINE_LIMIT then StoreOf(h) else StoreOf(h)[BasicHash(encoded) := encoded]
    ensures Refer(s) == if |encoded| < INLINE_LIMIT then encoded else BasicHash(encoded)
  {
    assert (h + [s])[..|h|] == h;
    assert LastStored(h + [s]) == Stored(StoreOf(h), s);
  }

  ghost function LogOf(h: seq<Shape>): (log: set<Shape>)
  {
    set s | s in h
  }

  lemma LogOfSnoc(h: seq<Shape>, s: Shape)
    ensures LogOf(h + [s]) == LogOf(h) + {s}
  {
  }

  lemma {:induction false} StoreOfIsBacked(h: seq<Shape>)
    ensures Backed(StoreOf(h), LogOf(h))
  {
    if h != [] {
      var m := |h| - 1;
      LogOfSnoc(h[..m], h[m]);
      assert h == h[..m] + [h[m]];
      assert StoreOf(h) == LastStored(h);
      StoreOfIsBacked(h[..m]);
      StoredIsBackedBy(StoreOf(h[..m]), LogOf(h[..m]), h[m], LogOf(h), EncodeShape, HashKey, StoreOf(h));
    }
  }

  // ---- a node that was read ---------------------------------------------------------------

  /** The trie's own scheme, under a name that hides its definition from proofs that need not look. */
  type OwnScheme = f: Scheme | forall s {:trigger Refer(s)} :: f(s) == Refer(s) ghost witness Refer

  lemma OwnIsBounded(f: OwnScheme)
    ensures Bounded(f)
  {
    forall s ensures 0 < |f(s)| <= MAX_REFERENCE {
      assert f(s) == Refer(s);
    }
  }

  /** The node `node` is the top of `t`. */
  ghost predicate IsTop(f: Scheme, node: Node, t: Trie)
  {
    && node.Valid()
    && match t
       case Empty => false
       case Leaf(p, v) => node.LeafNode? && node.path.View() == p && node.value == v
       case Extension(p, c) => node.ExtensionNode? && node.path.View() == p && node.next == TreeRef(f, c)
       case Branch(kids, v) => node.BranchNode? && node.branches == Refs(f, kids) && node.value == v
  }

  lemma TopOf(f: Scheme, node: Node, t: Trie)
    requires t != Empty && node.Valid()
    ensures node.Shape() == ShapeOf(f, t) <==> IsTop(f, node, t)
  {
  }

  lemma ReadTop(f: OwnScheme, nodes: map<Reference, Bytes>, t: Trie)
    requires t != Empty && Readable(f, nodes, t)
    ensures Fetch(nodes, TreeRef(f, t)).Ok?
    ensures IsTop(f, Fetch(nodes, TreeRef(f, t)).value, t)
    ensures t.Extension? ==> Readable(f, nodes, t.child)
    ensures t.Branch? ==> forall i :: 0 <= i < |t.kids| ==> Readable(f, nodes, t.kids[i])
  {
    assert TopAndBelow(f, t, Reader(nodes));
    assert Reader(nodes)(ShapeOf(f, t));
    assert TreeRef(f, t) == NodeRef(f, t) == Refer(ShapeOf(f, t));
    TopOf(f, Fetch(nodes, TreeRef(f, t)).value, t);
  }

  /** A store reads a reference as one trie at most, collisions or not. */
  lemma {:induction false} StoreDecides(f: OwnScheme, nodes: map<Reference, Bytes>, t: Trie, u: Trie)
    requires Readable(f, nodes, t) && Readable(f, nodes, u) && TreeRef(f, t) == TreeRef(f, u)
    requires Bounded(f)
    ensures t == u
    decreases t
  {
    RefLength(f, t);
    RefLength(f, u);
    if t != Empty {
      ReadTop(f, nodes, t);
      ReadTop(f, nodes, u);
      match t {
        case Leaf(_, _) =>
        case Extension(_, c) => StoreDecides(f, nodes, c, u.child);
        case Branch(kids, _) =>
          forall i | 0 <= i < |kids| ensures |u.kids| == |kids| && kids[i] == u.kids[i] {
            assert Refs(f, kids)[i] == Refs(f, u.kids)[i];
            StoreDecides(f, nodes, kids[i], u.kids[i]);
          }
          assert |u.kids| == |Refs(f, u.kids)| == |kids|;
      }
    }
  }

  /** Where the top node of `t` reads back, only tries with the same top are read at its reference. */
  lemma SameTop(f: OwnScheme, nodes: map<Reference, Bytes>, t: Trie, u: Trie)
    requires t != Empty && u != Empty && TreeRef(f, t) == TreeRef(f, u)
    requires ReadsBack(nodes, ShapeOf(f, t)) && Readable(f, nodes, u)
    ensures ShapeOf(f, u) == ShapeOf(f, t)
  {
    ReadTop(f, nodes, u);
    assert TreeRef(f, t) == NodeRef(f, t) == Refer(ShapeOf(f, t));
    TopOf(f, Fetch(nodes, TreeRef(f, u)).value, u);
  }

  /** Leaves too long to stay inline that differ by a trailing zero byte share their reference. */
  lemma CollidingLeaves(p: Nibbles, v: Bytes)
    requires |EncodeShape(LeafShape(p, v))| >= INLINE_LIMIT
    ensures Refer(LeafShape(p, v + [0])) == Refer(LeafShape(p, v))
    ensures Collide(LeafShape(p, v), LeafShape(p, v + [0]), EncodeShape, HashKey)
  {
    var x := EncodeShape(LeafShape(p, v));
    assert EncodeShape(LeafShape(p, v + [0])) == x + [0];
    TrailingZeroCollides(x);
  }

  /** From history `h` to `after` exactly the nodes of `s` have been put into the store. */
  ghost predicate Wrote(h: seq<Shape>, after: seq<Shape>, s: set<Shape>)
  {
    h <= after && LogOf(after) == LogOf(h) + s
  }

  lemma WroteOne(h: seq<Shape>, s: Shape)
    ensures Wrote(h, h + [s], {s})
  {
    LogOfSnoc(h, s);
  }

  lemma WroteTwice(h: seq<Shape>, mid: seq<Shape>, after: seq<Shape>, a: set<Shape>, b: set<Shape>)
    requires Wrote(h, mid, a) && Wrote(mid, after, b)
    ensures Wrote(h, after, a + b)
  {
  }

  /** What was in the log before may be counted in. */
  lemma WroteMore(h: seq<Shape>, after: seq<Shape>, s: set<Shape>, more: set<Shape>)
    requires Wrote(h, after, s) && s <= more <= LogOf(h) + s
    ensures Wrote(h, after, more)
  {
  }

  /** The node that `CreateBranchLeaf` writes, if any. */
  ghost function LeafEntry(p: Nibbles, v: Bytes): (s: set<Shape>)
  {
    if p == [] then {} else {LeafShape(p[1..], v)}
  }

  lemma PlantLeafShapes(f: Scheme, kids: seq<Trie>, p: Nibbles, v: Bytes)
    requires |kids| == BRANCHES_NUM && (p != [] ==> kids[p[0]] == Empty)
    ensures KidShapes(f, PlantLeaf(kids, p, v)) == KidShapes(f, kids) + LeafEntry(p, v)
  {
    if p != [] {
      KidShapesUpdate(f, kids, p[0], Leaf(p[1..], v));
    }
  }

  lemma ForkShapes(f: Scheme, p: Nibbles, v: Bytes, q: Nibbles, w: Bytes)
    requires CommonLen(p, q) == 0
    ensures ShapesOf(f, Fork(p, v, q, w)) == LeafEntry(p, v) + LeafEntry(q, w) + {ShapeOf(f, Fork(p, v, q, w))}
  {
    NoKids(f);
    PlantLeafShapes(f, NO_KIDS, p, v);
    PlantLeafShapes(f, PlantLeaf(NO_KIDS, p, v), q, w);
  }

  lemma SplitShapes(f: Scheme, p: Nibbles, v: Bytes, q: Nibbles, c: Trie)
    requires CommonLen(p, q) == 0 && q != []
    ensures ShapesOf(f, SplitExtension(p, v, q, c)) ==
            LeafEntry(p, v) + ShapesOf(f, Wrap(q[1..], c)) + {ShapeOf(f, SplitExtension(p, v, q, c))}
  {
    NoKids(f);
    PlantLeafShapes(f, NO_KIDS, p, v);
    KidShapesUpdate(f, PlantLeaf(NO_KIDS, p, v), q[0], Wrap(q[1..], c));
  }
}
