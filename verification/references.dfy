/** References to nodes and tries, for any way of referring to a node by its contents. */
module References {
  import opened ByteStrings
  import opened Nodes
  import opened Tries

  type Scheme = Shape -> Reference

  function TreeRef(refer: Scheme, t: Trie): (ref: Reference)
    decreases t, 2
  {
    if t == Empty then [] else NodeRef(refer, t)
  }

  function NodeRef(refer: Scheme, t: Trie): (ref: Reference)
    requires t != Empty
    decreases t, 1
  {
    refer(ShapeOf(refer, t))
  }

  /** The top node of a trie, with references for its children. */
  function ShapeOf(refer: Scheme, t: Trie): (s: Shape)
    requires t != Empty
    decreases t, 0
  {
    match t
    case Leaf(p, v) => LeafShape(p, v)
    case Extension(p, c) => ExtensionShape(p, TreeRef(refer, c))
    case Branch(kids, v) => BranchShape(Refs(refer, kids), v)
  }

  function Refs(refer: Scheme, kids: seq<Trie>): (refs: seq<Reference>)
    ensures |refs| == |kids| && forall i :: 0 <= i < |kids| ==> refs[i] == TreeRef(refer, kids[i])
    decreases kids, 0
  {
    seq(|kids|, i requires 0 <= i < |kids| => TreeRef(refer, kids[i]))
  }

  /** The nodes of a trie. */
  ghost function ShapesOf(refer: Scheme, t: Trie): (s: set<Shape>)
  {
    match t
    case Empty => {}
    case Leaf(_, _) => {ShapeOf(refer, t)}
    case Extension(_, c) => {ShapeOf(refer, t)} + ShapesOf(refer, c)
    case Branch(kids, _) => {ShapeOf(refer, t)} + KidShapes(refer, kids)
  }

  ghost function KidShapes(refer: Scheme, kids: seq<Trie>): (s: set<Shape>)
  {
    set i, e | 0 <= i < |kids| && e in ShapesOf(refer, kids[i]) :: e
  }

  lemma SubShapes(refer: Scheme, t: Trie, log: set<Shape>)
    requires t != Empty && ShapesOf(refer, t) <= log
    ensures ShapeOf(refer, t) in log
    ensures t.Extension? ==> ShapesOf(refer, t.child) <= log
    ensures t.Branch? ==> forall i :: 0 <= i < |t.kids| ==> ShapesOf(refer, t.kids[i]) <= log
  {
    assert ShapeOf(refer, t) in ShapesOf(refer, t);
    if t.Branch? {
      forall i, e | 0 <= i < |t.kids| && e in ShapesOf(refer, t.kids[i]) ensures e in log {
        assert e in KidShapes(refer, t.kids);
      }
    }
  }

  ghost predicate AllNodes(refer: Scheme, t: Trie, good: Shape -> bool)
    decreases t, 1
  {
    t == Empty || TopAndBelow(refer, t, good)
  }

  ghost predicate TopAndBelow(refer: Scheme, t: Trie, good: Shape -> bool)
    requires t != Empty
    decreases t, 0
  {
    && good(ShapeOf(refer, t))
    && (t.Extension? ==> AllNodes(refer, t.child, good))
    && (t.Branch? ==> forall i :: 0 <= i < |t.kids| ==> AllNodes(refer, t.kids[i], good))
  }

  // ---- one slot changes ------------------------------------------------------------------

  lemma RefsUpdate(refer: Scheme, kids: seq<Trie>, i: nat, u: Trie)
    requires i < |kids|
    ensures Refs(refer, kids[i := u]) == Refs(refer, kids)[i := TreeRef(refer, u)]
  {
  }

  lemma NoKids(refer: Scheme)
    ensures Refs(refer, NO_KIDS) == Repeat([], BRANCHES_NUM)
    ensures KidShapes(refer, NO_KIDS) == {}
  {
  }

  lemma KidShapesUpdate(refer: Scheme, kids: seq<Trie>, i: nat, u: Trie)
    requires i < |kids|
    ensures ShapesOf(refer, u) <= KidShapes(refer, kids[i := u]) <= KidShapes(refer, kids) + ShapesOf(refer, u)
    ensures kids[i] == Empty ==> KidShapes(refer, kids[i := u]) == KidShapes(refer, kids) + ShapesOf(refer, u)
  {
    var after := kids[i := u];
    forall e | e in ShapesOf(refer, u) ensures e in KidShapes(refer, after) {
      assert after[i] == u;
    }
    forall j, e | 0 <= j < |after| && e in ShapesOf(refer, after[j])
      ensures e in KidShapes(refer, kids) + ShapesOf(refer, u)
    {
      assert j != i ==> e in ShapesOf(refer, kids[j]);
    }
    if kids[i] == Empty {
      forall j, e | 0 <= j < |kids| && e in ShapesOf(refer, kids[j]) ensures e in KidShapes(refer, after) {
        assert j != i && e in ShapesOf(refer, after[j]);
      }
    }
  }

  /** Every node is referred to by at most `MAX_REFERENCE` bytes, and never by none. */
  ghost predicate Bounded(refer: Scheme)
  {
    forall s :: 0 < |refer(s)| <= MAX_REFERENCE
  }

  lemma RefLength(refer: Scheme, t: Trie)
    requires Bounded(refer)
    ensures |TreeRef(refer, t)| <= MAX_REFERENCE
    ensures TreeRef(refer, t) == [] <==> t == Empty
  {
    if t != Empty {
      assert NodeRef(refer, t) == refer(ShapeOf(refer, t));
    }
  }

  lemma ShapeIsEncodable(refer: Scheme, t: Trie, n: int)
    requires WellFormed(t, n) && n <= MAX_PATH && t != Empty && Bounded(refer)
    ensures Encodable(ShapeOf(refer, t))
  {
    match t {
      case Leaf(_, _) =>
      case Extension(_, c) => RefLength(refer, c);
      case Branch(kids, _) =>
        forall i | 0 <= i < |kids| ensures |TreeRef(refer, kids[i])| <= MAX_REFERENCE {
          RefLength(refer, kids[i]);
        }
    }
  }

  /** What holds of all encodable nodes written holds of all nodes of a trie that was written. */
  lemma {:induction false} AllWritten(refer: Scheme, t: Trie, n: int, log: set<Shape>, good: Shape -> bool)
    requires ShapesOf(refer, t) <= log && WellFormed(t, n) && n <= MAX_PATH && Bounded(refer)
    requires forall s :: s in log && Encodable(s) ==> good(s)
    ensures AllNodes(refer, t, good)
    decreases t
  {
    if t != Empty {
      SubShapes(refer, t, log);
      ShapeIsEncodable(refer, t, n);
    }
    match t {
      case Empty =>
      case Leaf(_, _) =>
      case Extension(q, c) => AllWritten(refer, c, n - |q|, log, good);
      case Branch(kids, _) =>
        forall i | 0 <= i < |kids| ensures AllNodes(refer, kids[i], good) {
          AllWritten(refer, kids[i], n - 1, log, good);
        }
    }
  }

  /** Among the nodes of `log` a reference stands for one node. */
  ghost predicate Unambiguous(refer: Scheme, log: set<Shape>)
  {
    forall a, b :: a in log && b in log && Encodable(a) && Encodable(b) && refer(a) == refer(b) ==> a == b
  }

  /** The same reference means the same node on top, over the same references. */
  lemma SameReferenceSameTop(refer: Scheme, t: Trie, u: Trie, n: int, log: set<Shape>)
    requires WellFormed(t, n) && WellFormed(u, n) && n <= MAX_PATH && Bounded(refer)
    requires ShapesOf(refer, t) <= log && ShapesOf(refer, u) <= log && Unambiguous(refer, log)
    requires TreeRef(refer, t) == TreeRef(refer, u)
    ensures t == Empty <==> u == Empty
    ensures t != Empty ==> ShapeOf(refer, t) == ShapeOf(refer, u)
  {
    RefLength(refer, t);
    RefLength(refer, u);
    if t != Empty {
      SubShapes(refer, t, log);
      SubShapes(refer, u, log);
      ShapeIsEncodable(refer, t, n);
      ShapeIsEncodable(refer, u, n);
      assert NodeRef(refer, t) == NodeRef(refer, u);
    }
  }

  /** Equal root bytes mean equal tries. */
  lemma {:induction false} SameRootSameTrie(refer: Scheme, t: Trie, u: Trie, n: int, log: set<Shape>)
    requires WellFormed(t, n) && WellFormed(u, n) && n <= MAX_PATH && Bounded(refer)
    requires ShapesOf(refer, t) <= log && ShapesOf(refer, u) <= log && Unambiguous(refer, log)
    requires TreeRef(refer, t) == TreeRef(refer, u)
    ensures t == u
    decreases t
  {
    SameReferenceSameTop(refer, t, u, n, log);
    if t != Empty {
      SubShapes(refer, t, log);
      SubShapes(refer, u, log);
    }
    if t.Extension? {
      SameRootSameTrie(refer, t.child, u.child, n - |t.path|, log);
    } else if t.Branch? {
      forall i | 0 <= i < |t.kids| ensures t.kids[i] == u.kids[i] {
        assert Refs(refer, t.kids)[i] == Refs(refer, u.kids)[i];
        SameRootSameTrie(refer, t.kids[i], u.kids[i], n - 1, log);
      }
      assert t.kids == u.kids;
    }
  }
}
