/** The trie class (mpt.hpp, mpt.cpp): `root` and the append-only store `nodes`. */
module Mpt {
  import opened ByteStrings
  import opened Paths
  import opened Hashing
  import opened Nodes
  import opened Tries
  import opened References
  import opened Merkle
  import opened CanonicalForm
  import opened Deletion
  import Removal

  /** `DeleteResult` of the source. */
  datatype NodeDeletion =
    | NodeDeleted
    | NodeUpdated(ref: Reference)
    | NodeUseless(path: Path, ref: Reference)

  /** The node on top of what a deletion leaves. */
  ghost function TopShape(f: Scheme, d: DeleteResult): (s: set<Shape>)
  {
    if (d.Updated? || d.UselessBranch?) && d.t != Empty then {ShapeOf(f, d.t)} else {}
  }

  /** The nodes that `DeleteNode` writes: one per level on the way up from the place of the deletion. */
  ghost function DeleteWrites(f: Scheme, t: Trie, p: Nibbles, mode: Mode): (s: set<Shape>)
    decreases t
  {
    var d := DeleteTrie(t, p, mode);
    if !d.Updated? && !d.UselessBranch? then {}
    else
      TopShape(f, d)
      + match t {
          case Extension(q, c) => if q <= p then DeleteWrites(f, c, p[|q|..], mode) else {}
          case Branch(kids, _) =>
            if p != [] && p[0] < |kids| then DeleteWrites(f, kids[p[0]], p[1..], mode) else {}
          case _ => {}
        }
  }

  lemma ExtensionWrites(f: Scheme, t: Trie, p: Nibbles, mode: Mode, rest: Nibbles)
    requires t.Extension? && t.path <= p && rest == p[|t.path|..]
    ensures
      var e := DeleteTrie(t, p, mode);
      && e == AfterExtension(t.path, DeleteTrie(t.child, rest, mode))
      && (e.Updated? || e.UselessBranch? ==>
            DeleteWrites(f, t, p, mode) == TopShape(f, e) + DeleteWrites(f, t.child, rest, mode))
  {
  }

  lemma BranchWrites(f: Scheme, t: Trie, p: Nibbles, mode: Mode, rest: Nibbles)
    requires t.Branch? && |t.kids| == BRANCHES_NUM && p != [] && t.kids[p[0]] != Empty && rest == p[1..]
    ensures
      var e := DeleteTrie(t, p, mode);
      && e == AfterBranch(t.kids, t.value, p[0], DeleteTrie(t.kids[p[0]], rest, mode), mode)
      && (e.Updated? || e.UselessBranch? ==>
            DeleteWrites(f, t, p, mode) == TopShape(f, e) + DeleteWrites(f, t.kids[p[0]], rest, mode))
  {
  }

  lemma MergedShapes(f: Scheme, q: Nibbles, infoPath: Nibbles, u: Trie, log: set<Shape>)
    requires u != Empty && ShapesOf(f, u) <= log
    ensures ShapesOf(f, Merge(q, infoPath, u)) <= log + {ShapeOf(f, Merge(q, infoPath, u))}
  {
    SubShapes(f, u, log);
  }

  lemma KidIsLogged(f: Scheme, kids: seq<Trie>, i: nat, log: set<Shape>)
    requires i < |kids| && KidShapes(f, kids) <= log
    ensures ShapesOf(f, kids[i]) <= log
  {
    assert forall e :: e in ShapesOf(f, kids[i]) ==> e in KidShapes(f, kids);
  }

  /** `count_if` over the slots. */
  method CountSlots(refs: seq<Reference>) returns (c: nat)
    ensures c == |set i | 0 <= i < |refs| && refs[i] != []|
  {
    c := 0;
    for i := 0 to |refs|
      invariant c == |set j | 0 <= j < i && refs[j] != []|
    {
      ghost var before := set j | 0 <= j < i && refs[j] != [];
      ghost var after := set j | 0 <= j < i + 1 && refs[j] != [];
      if refs[i] != [] {
        c := c + 1;
        assert after == before + {i};
      } else {
        assert after == before;
      }
    }
  }

  /** `find_if` over the slots. */
  method FindSlot(refs: seq<Reference>) returns (i: nat)
    ensures i <= |refs| && (i < |refs| ==> refs[i] != [])
    ensures forall j :: 0 <= j < i ==> refs[j] == []
  {
    i := 0;
    while i < |refs| && refs[i] == []
      invariant i <= |refs| && forall j :: 0 <= j < i ==> refs[j] == []
    {
      i := i + 1;
    }
  }

  class MerklePatriciaTrie {
    var root: Reference
    var nodes: map<Reference, Bytes>

    ghost var tree: Trie  // what the root stands for
    ghost var history: seq<Shape>  // the nodes put into the store so far, in order

    /** The store is what the history made of it. */
    ghost predicate Sound()
      reads this
    {
      nodes == StoreOf(history)
    }

    ghost predicate Valid()
      reads this
    {
      && Sound()
      && WellFormed(tree, MAX_PATH)
      && ShapesOf(Refer, tree) <= LogOf(history)
      && root == RefOf(tree)
    }

    /** The reference `ref` stands for `t`, and all of `t` can be read. */
    ghost predicate Stands(f: OwnScheme, ref: Reference, t: Trie, n: int)
      reads this
    {
      && WellFormed(t, n) && n <= MAX_PATH
      && ref == TreeRef(f, t)
      && Readable(f, nodes, t)
    }

    lemma Below(f: OwnScheme, ref: Reference, t: Trie, n: int)
      requires Stands(f, ref, t, n) && t != Empty
      ensures t.Extension? ==> Stands(f, TreeRef(f, t.child), t.child, n - |t.path|)
      ensures t.Branch? ==> forall i :: 0 <= i < |t.kids| ==> Stands(f, TreeRef(f, t.kids[i]), t.kids[i], n - 1)
    {
      ReadTop(f, nodes, t);
    }

    lemma RootStands()
      requires Valid() && CollisionFree(LogOf(history))
      ensures Stands(Refer, root, tree, MAX_PATH)
    {
      StoreOfIsBacked(history);
      PastRootsPersist(nodes, LogOf(history), tree, MAX_PATH);
    }

    lemma OwnLength(f: OwnScheme, t: Trie)
      ensures TreeRef(f, t) == [] <==> t == Empty
    {
      if t != Empty {
        assert TreeRef(f, t) == NodeRef(f, t) == Refer(ShapeOf(f, t));
      }
    }

    constructor ()
      ensures Valid() && tree == Empty && history == []
    {
      root, nodes, tree, history := [], map[], Empty, [];
    }

    method GetFromStorage(ref: Reference) returns (r: Result<Node>)
      ensures r == Fetch(nodes, ref)
    {
      r := Fetch(nodes, ref);
    }

    /** `GetFromStorage`, where the reference is known to stand for `t`. */
    method ReadNode(ref: Reference, ghost f: OwnScheme, ghost t: Trie) returns (r: Result<Node>)
      requires t != Empty && ref == TreeRef(f, t) && Readable(f, nodes, t)
      ensures r.Ok? && IsTop(f, r.value, t)
    {
      ReadTop(f, nodes, t);
      r := GetFromStorage(ref);
    }

    method PutToStorage(node: Node, ghost f: OwnScheme, ghost u: Trie) returns (ref: Reference)
      requires IsTop(f, node, u) && Sound()
      modifies this`nodes, this`history
      ensures ref == TreeRef(f, u)
      ensures Sound() && history == old(history) + [ShapeOf(f, u)] && Wrote(old(history), history, {ShapeOf(f, u)})
    {
      var encoded := Encode(node);
      TopOf(f, node, u);
      PutEffect(history, node.Shape(), encoded);
      WroteOne(history, node.Shape());
      assert TreeRef(f, u) == NodeRef(f, u) == Refer(ShapeOf(f, u));
      history := history + [node.Shape()];
      if |encoded| < INLINE_LIMIT {
        return encoded;
      }
      var key := ComputeBasicHash(encoded);
      nodes := nodes[key := encoded];
      return key;
    }

    // ---- get ------------------------------------------------------------------------------

    /** `GetHandler` */
    method GetNode(ref: Reference, path: PathCursor, ghost f: OwnScheme, ghost t: Trie, ghost n: int)
      returns (r: Result<Option<Bytes>>)
      requires path.Valid() && Stands(f, ref, t, n) && t != Empty
      modifies path
      ensures r == Ok(Find(t, old(path.View())))
      decreases t, 1
    {
      Below(f, ref, t, n);
      var fetched := ReadNode(ref, f, t);
      match fetched {
        case Err(e) => r := Err(e);
        case Ok(LeafNode(p, v)) =>
          var same := Equals(p, path.path);
          r := Ok(if same then Some(v) else None);
        case Ok(ExtensionNode(p, next)) =>
          var starts := StartsWith(path.path, p);
          if path.path.Size() >= p.Size() && starts {
            path.Consume(p.Size());
            r := GetNode(next, path, f, t.child, n - |t.path|);
          } else {
            r := Ok(None);
          }
        case Ok(BranchNode(bs, v)) =>
          if path.path.Size() == 0 {
            r := Ok(Some(v));
          } else {
            r := GetBelowBranch(bs, path, f, t, n);
          }
      }
    }

    method GetBelowBranch(bs: seq<Reference>, path: PathCursor, ghost f: OwnScheme, ghost t: Trie, ghost n: int)
      returns (r: Result<Option<Bytes>>)
      requires path.Valid() && path.View() != [] && t.Branch? && bs == Refs(f, t.kids)
      requires Stands(f, TreeRef(f, t), t, n)
      modifies path
      ensures r == Ok(Find(t, old(path.View())))
      decreases t, 0
    {
      var branches := GetBranches(bs);
      var first := path.path.At(0);
      var nibble := first.value;
      OwnLength(f, t.kids[nibble]);
      if branches[nibble] != [] {
        Below(f, TreeRef(f, t), t, n);
        path.Consume(1);
        r := GetNode(branches[nibble], path, f, t.kids[nibble], n - 1);
      } else {
        r := Ok(None);
      }
    }

    /** `get`, for any trie that the root stands for in the present store: `RootStands` says that this is
        `tree` as long as no two nodes written collide. */
    method Get(key: Bytes, ghost t: Trie) returns (r: Result<Bytes>)
      requires Stands(Refer, root, t, MAX_PATH)
      ensures r ==
              if t == Empty then Err(NotInitialized)
              else match Find(t, KeyPath(key)) case Some(v) => Ok(v) case None => Err(KeyNotFound)
    {
      OwnLength(Refer, t);
      if root == [] {
        return Err(NotInitialized);
      }
      var path := new PathCursor(PathFromKey(key));
      var found := GetNode(root, path, Refer, t, MAX_PATH);
      match found {
        case Ok(Some(v)) => r := Ok(v);
        case Ok(None) => r := Err(KeyNotFound);
        case Err(e) => r := Err(e);
      }
    }

    // ---- set ------------------------------------------------------------------------------

    /** What `SetNode` achieves from history `h` on. */
    ghost predicate Made(f: OwnScheme, r: Result<Reference>, h: seq<Shape>, u: Trie)
      reads this
    {
      Sound() && r == Ok(TreeRef(f, u)) && Wrote(h, history, ShapesOf(f, u))
    }

    method SetNode(ref: Reference, path: PathCursor, value: Bytes, ghost f: OwnScheme, ghost t: Trie, ghost n: int)
      returns (r: Result<Reference>)
      requires path.Valid() && Stands(f, ref, t, n)
      requires Sound() && ShapesOf(f, t) <= LogOf(history)
      modifies this`nodes, this`history, path
      ensures Made(f, r, old(history), Insert(t, old(path.View()), value))
      decreases t, 1
    {
      OwnLength(f, t);
      if ref == [] {
        var leaf := PutToStorage(LeafNode(path.path, value), f, Leaf(path.View(), value));
        return Ok(leaf);
      }
      var fetched := ReadNode(ref, f, t);
      match fetched {
        case Err(e) => r := Err(e);
        case Ok(LeafNode(p, v)) => r := SetLeaf(p, v, path, value, f, t);
        case Ok(ExtensionNode(p, next)) => r := SetExtension(p, next, path, value, f, t, n);
        case Ok(BranchNode(bs, v)) => r := SetBranch(bs, v, path, value, f, t, n);
      }
    }

    method SetLeaf(leafPath: Path, leafValue: Bytes, path: PathCursor, value: Bytes, ghost f: OwnScheme, ghost t: Trie)
      returns (r: Result<Reference>)
      requires path.Valid() && leafPath.Valid() && t == Leaf(leafPath.View(), leafValue) && Sound()
      modifies this`nodes, this`history, path
      ensures Made(f, r, old(history), Insert(t, old(path.View()), value))
    {
      var same := Equals(leafPath, path.path);
      if same {
        var leaf := PutToStorage(LeafNode(path.path, value), f, Leaf(path.View(), value));
        r := Ok(leaf);
      } else {
        r := SplitLeaf(leafPath, leafValue, path, value, f);
      }
    }

    method SplitLeaf(leafPath: Path, leafValue: Bytes, path: PathCursor, value: Bytes, ghost f: OwnScheme)
      returns (r: Result<Reference>)
      requires path.Valid() && leafPath.Valid() && leafPath.View() != path.View() && Sound()
      modifies this`nodes, this`history, path
      ensures
        var p, q := old(path.View()), leafPath.View();
        var k := CommonLen(p, q);
        Made(f, r, old(history), Wrap(p[..k], Fork(p[k..], value, q[k..], leafValue)))
    {
      ghost var p, q := path.View(), leafPath.View();
      ghost var k := CommonLen(p, q);
      var common, rest := Part(path, leafPath);
      r := CreateBranchNode(path.path, value, rest, leafValue, f);
      if r.Ok? {
        r := UnderPrefix(common, r.value, f, Fork(p[k..], value, q[k..], leafValue), old(history));
      }
    }

    /** Takes the common prefix of the two paths off both. */
    static method Part(path: PathCursor, other: Path) returns (common: Path, rest: Path)
      requires path.Valid() && other.Valid()
      modifies path
      ensures path.Valid() && common.Valid() && rest.Valid()
      ensures
        var p, q := old(path.View()), other.View();
        var k := CommonLen(p, q);
        && common.View() == p[..k] && path.View() == p[k..] && rest.View() == q[k..]
        && CommonLen(p[k..], q[k..]) == 0
      ensures old(path.View()) != other.View() ==> path.View() != [] || rest.View() != []
    {
      ghost var p, q := path.View(), other.View();
      assert p == p[..CommonLen(p, q)] + p[CommonLen(p, q)..] && q == q[..CommonLen(p, q)] + q[CommonLen(p, q)..];
      common := CommonPrefix(path.path, other);
      path.Consume(common.Size());
      var cursor := new PathCursor(other);
      cursor.Consume(common.Size());
      rest := cursor.path;
      CommonLenIs(p[CommonLen(p, q)..], q[CommonLen(p, q)..], 0);
    }

    /** Puts an extension above a new branch when there was a common prefix. */
    method UnderPrefix(common: Path, branchRef: Reference, ghost f: OwnScheme, ghost b: Trie, ghost h: seq<Shape>)
      returns (r: Result<Reference>)
      requires common.Valid() && Made(f, Ok(branchRef), h, b)
      modifies this`nodes, this`history
      ensures Made(f, r, h, Wrap(common.View(), b))
    {
      if common.Size() != 0 {
        r := PutAbove(common, branchRef, f, b, h);
      } else {
        r := Ok(branchRef);
      }
    }

    method CreateBranchLeaf(path: Path, value: Bytes, branches: seq<Reference>,
                            ghost f: OwnScheme, ghost kids: seq<Trie>)
      returns (after: seq<Reference>)
      requires path.Valid() && Sound() && |kids| == BRANCHES_NUM && branches == Refs(f, kids)
      modifies this`nodes, this`history
      ensures Sound() && after == Refs(f, PlantLeaf(kids, path.View(), value))
      ensures Wrote(old(history), history, LeafEntry(path.View(), value))
    {
      after := branches;
      if path.Size() > 0 {
        var first := path.At(0);
        var nibble := first.value;
        var rest := new PathCursor(path);
        rest.Consume(1);
        ghost var leaf := Leaf(path.View()[1..], value);
        var ref := PutToStorage(LeafNode(rest.path, value), f, leaf);
        RefsUpdate(f, kids, nibble, leaf);
        after := after[nibble := ref];
      }
    }

    method CreateBranchNode(lhs: Path, lhsValue: Bytes, rhs: Path, rhsValue: Bytes, ghost f: OwnScheme)
      returns (r: Result<Reference>)
      requires lhs.Valid() && rhs.Valid() && Sound() && CommonLen(lhs.View(), rhs.View()) == 0
      modifies this`nodes, this`history
      ensures if lhs.View() == [] && rhs.View() == [] then r == Err(InvalidAction)
              else Made(f, r, old(history), Fork(lhs.View(), lhsValue, rhs.View(), rhsValue))
    {
      if lhs.Size() == 0 && rhs.Size() == 0 {
        return Err(InvalidAction);
      }
      ghost var p, q := lhs.View(), rhs.View();
      var value: Bytes := [];
      if lhs.Size() == 0 {
        value := lhsValue;
      } else if rhs.Size() == 0 {
        value := rhsValue;
      }
      NoKids(f);
      var branches: seq<Reference> := Repeat([], BRANCHES_NUM);
      branches := CreateBranchLeaf(lhs, lhsValue, branches, f, NO_KIDS);
      ghost var one := history;
      branches := CreateBranchLeaf(rhs, rhsValue, branches, f, PlantLeaf(NO_KIDS, p, lhsValue));
      ghost var two := history;
      ghost var b := Fork(p, lhsValue, q, rhsValue);
      var ref := PutToStorage(BranchNode(branches, value), f, b);
      WroteTwice(old(history), one, two, LeafEntry(p, lhsValue), LeafEntry(q, rhsValue));
      WroteTwice(old(history), two, history, LeafEntry(p, lhsValue) + LeafEntry(q, rhsValue), {ShapeOf(f, b)});
      ForkShapes(f, p, lhsValue, q, rhsValue);
      r := Ok(ref);
    }

    method SetExtension(extPath: Path, next: Reference, path: PathCursor, value: Bytes,
                        ghost f: OwnScheme, ghost t: Trie, ghost n: int) returns (r: Result<Reference>)
      requires path.Valid() && extPath.Valid() && Sound() && ShapesOf(f, t) <= LogOf(history)
      requires t.Extension? && t.path == extPath.View() && next == TreeRef(f, t.child)
      requires Stands(f, TreeRef(f, t), t, n)
      modifies this`nodes, this`history, path
      ensures Made(f, r, old(history), Insert(t, old(path.View()), value))
      decreases t, 0
    {
      SubShapes(f, t, LogOf(history));
      var starts := StartsWith(path.path, extPath);
      if !starts {
        r := SplitLink(extPath, next, path, value, f, t.child);
        return;
      }
      Below(f, TreeRef(f, t), t, n);
      path.Consume(extPath.Size());
      ghost var rest := path.View();
      r := SetNode(next, path, value, f, t.child, n - |t.path|);
      if r.Ok? {
        r := PutAbove(extPath, r.value, f, Insert(t.child, rest, value), old(history));
      }
    }

    method SplitLink(extPath: Path, next: Reference, path: PathCursor, value: Bytes, ghost f: OwnScheme, ghost c: Trie)
      returns (r: Result<Reference>)
      requires path.Valid() && extPath.Valid() && !(extPath.View() <= path.View()) && Sound()
      requires next == TreeRef(f, c) && ShapesOf(f, c) <= LogOf(history)
      modifies this`nodes, this`history, path
      ensures Made(f, r, old(history), Insert(Extension(extPath.View(), c), old(path.View()), value))
    {
      ghost var p, q := path.View(), extPath.View();
      NotAPrefix(p, q);
      ghost var k := CommonLen(p, q);
      var common, rest := Part(path, extPath);
      r := SplitAt(path.path, value, rest, next, f, c);
      if r.Ok? {
        r := UnderPrefix(common, r.value, f, SplitExtension(p[k..], value, q[k..], c), old(history));
      }
    }

    /** Puts an extension above the node just set. */
    method PutAbove(extPath: Path, next: Reference, ghost f: OwnScheme, ghost u: Trie, ghost h: seq<Shape>)
      returns (r: Result<Reference>)
      requires extPath.Valid() && Made(f, Ok(next), h, u)
      modifies this`nodes, this`history
      ensures Made(f, r, h, Extension(extPath.View(), u))
    {
      ghost var mid, above := history, Extension(extPath.View(), u);
      var extension := PutToStorage(ExtensionNode(extPath, next), f, above);
      WroteTwice(h, mid, history, ShapesOf(f, u), {ShapeOf(f, above)});
      r := Ok(extension);
    }

    method CreateBranchExtension(path: Path, next: Reference, branches: seq<Reference>,
                                 ghost f: OwnScheme, ghost kids: seq<Trie>, ghost c: Trie)
      returns (r: Result<seq<Reference>>)
      requires path.Valid() && Sound() && |kids| == BRANCHES_NUM && branches == Refs(f, kids)
      requires next == TreeRef(f, c) && ShapesOf(f, c) <= LogOf(history)
      modifies this`nodes, this`history
      ensures if path.View() == [] then r == Err(InvalidAction)
              else && Sound() && r == Ok(Refs(f, PlantExtension(kids, path.View(), c)))
                   && Wrote(old(history), history, ShapesOf(f, Wrap(path.View()[1..], c)))
    {
      if path.Size() == 0 {
        return Err(InvalidAction);
      }
      var first := path.At(0);
      var nibble := first.value;
      ghost var q := path.View();
      ghost var u := Wrap(q[1..], c);
      var ref := next;
      if path.Size() == 1 {
        WroteMore(history, history, {}, ShapesOf(f, c));
      } else {
        var rest := new PathCursor(path);
        rest.Consume(1);
        ref := PutToStorage(ExtensionNode(rest.path, next), f, u);
        WroteMore(old(history), history, {ShapeOf(f, u)}, ShapesOf(f, u));
      }
      RefsUpdate(f, kids, nibble, u);
      r := Ok(branches[nibble := ref]);
    }

    /** The branch that replaces the rest of an extension. */
    method SplitAt(path: Path, value: Bytes, extRest: Path, next: Reference, ghost f: OwnScheme, ghost c: Trie)
      returns (r: Result<Reference>)
      requires path.Valid() && extRest.Valid() && Sound() && CommonLen(path.View(), extRest.View()) == 0
      requires next == TreeRef(f, c) && ShapesOf(f, c) <= LogOf(history)
      modifies this`nodes, this`history
      ensures if extRest.View() == [] then r == Err(InvalidAction)
              else Made(f, r, old(history), SplitExtension(path.View(), value, extRest.View(), c))
    {
      ghost var p, q := path.View(), extRest.View();
      NoKids(f);
      var branches: seq<Reference> := Repeat([], BRANCHES_NUM);
      var branchValue: Bytes := if path.Size() == 0 then value else [];
      branches := CreateBranchLeaf(path, value, branches, f, NO_KIDS);
      ghost var one := history;
      var planted := CreateBranchExtension(extRest, next, branches, f, PlantLeaf(NO_KIDS, p, value), c);
      if planted.Err? {
        return Err(planted.error);
      }
      ghost var two := history;
      ghost var b := SplitExtension(p, value, q, c);
      var ref := PutToStorage(BranchNode(planted.value, branchValue), f, b);
      ghost var s := ShapesOf(f, Wrap(q[1..], c));
      WroteTwice(old(history), one, two, LeafEntry(p, value), s);
      WroteTwice(old(history), two, history, LeafEntry(p, value) + s, {ShapeOf(f, b)});
      SplitShapes(f, p, value, q, c);
      r := Ok(ref);
    }

    method SetBranch(bs: seq<Reference>, v: Bytes, path: PathCursor, value: Bytes,
                     ghost f: OwnScheme, ghost t: Trie, ghost n: int) returns (r: Result<Reference>)
      requires path.Valid() && Sound() && ShapesOf(f, t) <= LogOf(history)
      requires t.Branch? && bs == Refs(f, t.kids) && v == t.value
      requires Stands(f, TreeRef(f, t), t, n)
      modifies this`nodes, this`history, path
      ensures Made(f, r, old(history), Insert(t, old(path.View()), value))
      decreases t, 0
    {
      var branches := GetBranches(bs);
      if path.path.Size() == 0 {
        ghost var u := Branch(t.kids, value);
        var ref := PutToStorage(BranchNode(branches, value), f, u);
        WroteMore(old(history), history, {ShapeOf(f, u)}, ShapesOf(f, u));
        return Ok(ref);
      }
      var first := path.path.At(0);
      var nibble := first.value;
      path.Consume(1);
      Below(f, TreeRef(f, t), t, n);
      SubShapes(f, t, LogOf(history));
      r := SetNode(branches[nibble], path, value, f, t.kids[nibble], n - 1);
      if r.Ok? {
        ghost var kid := Insert(t.kids[nibble], old(path.View())[1..], value);
        r := PutBranch(branches, v, nibble, r.value, f, t.kids, kid, old(history));
      }
    }

    /** Puts a branch whose slot `nibble` has a new reference. */
    method PutBranch(branches: seq<Reference>, v: Bytes, nibble: nibble, ref: Reference,
                     ghost f: OwnScheme, ghost kids: seq<Trie>, ghost u: Trie, ghost h: seq<Shape>)
      returns (r: Result<Reference>)
      requires |kids| == BRANCHES_NUM && branches == Refs(f, kids)
      requires Made(f, Ok(ref), h, u) && KidShapes(f, kids) <= LogOf(h)
      modifies this`nodes, this`history
      ensures Made(f, r, h, Branch(kids[nibble := u], v))
    {
      ghost var mid, b := history, Branch(kids[nibble := u], v);
      RefsUpdate(f, kids, nibble, u);
      var put := PutToStorage(BranchNode(branches[nibble := ref], v), f, b);
      WroteTwice(h, mid, history, ShapesOf(f, u), {ShapeOf(f, b)});
      KidShapesUpdate(f, kids, nibble, u);
      WroteMore(h, history, ShapesOf(f, u) + {ShapeOf(f, b)}, ShapesOf(f, b));
      r := Ok(put);
    }

    /** `set` */
    method Set(key: Bytes, value: Bytes)
      requires Valid() && Readable(Refer, nodes, tree) && |value| <= MAX_VALUE
      modifies this
      ensures Valid() && tree == Insert(old(tree), KeyPath(key), value)
      ensures Wrote(old(history), history, ShapesOf(Refer, tree))
    {
      InsertKeepsWellFormed(tree, KeyPath(key), value, MAX_PATH);
      var path := new PathCursor(PathFromKey(key));
      var r := SetNode(root, path, value, Refer, tree, MAX_PATH);
      root := r.value;
      tree := Insert(tree, KeyPath(key), value);
    }

    // ---- remove ---------------------------------------------------------------------------

    /** What `DeleteNode` achieves from history `h` on, when `d` is what becomes of the trie. */
    ghost predicate Deletes(f: OwnScheme, r: Result<NodeDeletion>, h: seq<Shape>, d: DeleteResult, w: set<Shape>)
      reads this
    {
      && Sound()
      && match d
         case Missing => r == Err(Error.KeyNotFound) && history == h
         case OutOfBounds => r == Err(BadAccess) && history == h
         case Deleted => r == Ok(NodeDeleted) && history == h
         case Updated(u) =>
           && r == Ok(NodeUpdated(TreeRef(f, u)))
           && Wrote(h, history, w) && ShapesOf(f, u) <= LogOf(history)
         case UselessBranch(p, u) =>
           && r.Ok? && r.value.NodeUseless? && r.value.ref == TreeRef(f, u)
           && r.value.path.Valid() && r.value.path.View() == p
           && Wrote(h, history, w) && ShapesOf(f, u) <= LogOf(history) && LastPut(f, u)
    }

    ghost predicate LastPut(f: OwnScheme, u: Trie)
      reads this
    {
      history != [] && u != Empty && history[|history| - 1] == ShapeOf(f, u)
    }

    /** `GetFromStorage`, where the reference is to the node put last. */
    method ReadLastPut(ref: Reference, ghost f: OwnScheme, ghost u: Trie, ghost n: int) returns (r: Result<Node>)
      requires Sound() && LastPut(f, u) && WellFormed(u, n) && n <= MAX_PATH && ref == TreeRef(f, u)
      ensures r.Ok? && IsTop(f, r.value, u)
    {
      OwnIsBounded(f);
      ShapeIsEncodable(f, u, n);
      JustStoredReadsBack(StoreOf(history[..|history| - 1]), ShapeOf(f, u));
      assert nodes == LastStored(history);
      assert TreeRef(f, u) == NodeRef(f, u) == Refer(ShapeOf(f, u));
      TopOf(f, Fetch(nodes, TreeRef(f, u)).value, u);
      r := GetFromStorage(ref);
    }

    /** Puts the node back below the nibbles of `prefix`. */
    method PutMerged(prefix: Path, infoPath: Path, ref: Reference, node: Node, ghost f: OwnScheme, ghost u: Trie)
      returns (path: Path, put: Reference)
      requires prefix.Valid() && infoPath.Valid() && Sound() && prefix.View() != []
      requires ref == TreeRef(f, u) && IsTop(f, node, u)
      modifies this`nodes, this`history
      ensures
        var m := Merge(prefix.View(), infoPath.View(), u);
        && Sound() && put == TreeRef(f, m) && path.Valid() && (m.Leaf? || m.Extension?) && path.View() == m.path
        && history == old(history) + [ShapeOf(f, m)] && Wrote(old(history), history, {ShapeOf(f, m)})
    {
      ghost var m := Merge(prefix.View(), infoPath.View(), u);
      match node {
        case LeafNode(p, v) =>
          path := Append(prefix, p);
          put := PutToStorage(LeafNode(path, v), f, m);
        case ExtensionNode(p, next) =>
          path := Append(prefix, p);
          put := PutToStorage(ExtensionNode(path, next), f, m);
        case BranchNode(_, _) =>
          path := Append(prefix, infoPath);
          put := PutToStorage(ExtensionNode(path, ref), f, m);
      }
    }

    method DeleteNode(ref: Reference, path: Path, mode: Mode, ghost f: OwnScheme, ghost t: Trie, ghost n: int)
      returns (r: Result<NodeDeletion>)
      requires path.Valid() && Stands(f, ref, t, n) && t != Empty
      requires Sound() && ShapesOf(f, t) <= LogOf(history)
      modifies this`nodes, this`history
      ensures Deletes(f, r, old(history), DeleteTrie(t, path.View(), mode), DeleteWrites(f, t, path.View(), mode))
      decreases t, 2
    {
      var fetched := ReadNode(ref, f, t);
      match fetched {
        case Err(e) => r := Err(e);
        case Ok(LeafNode(p, v)) =>
          var same := Equals(path, p);
          r := if same then Ok(NodeDeleted) else Err(Error.KeyNotFound);
        case Ok(ExtensionNode(p, next)) => r := DeleteBelowExtension(p, next, path, mode, f, t, n);
        case Ok(BranchNode(bs, v)) => r := DeleteFromBranch(bs, v, path, mode, f, t, n);
      }
    }

    method DeleteBelowExtension(extPath: Path, next: Reference, path: Path, mode: Mode,
                                ghost f: OwnScheme, ghost t: Trie, ghost n: int)
      returns (r: Result<NodeDeletion>)
      requires path.Valid() && extPath.Valid() && Sound() && ShapesOf(f, t) <= LogOf(history)
      requires t.Extension? && t.path == extPath.View() && next == TreeRef(f, t.child)
      requires Stands(f, TreeRef(f, t), t, n)
      modifies this`nodes, this`history
      ensures Deletes(f, r, old(history), DeleteTrie(t, path.View(), mode), DeleteWrites(f, t, path.View(), mode))
      decreases t, 0
    {
      var starts := StartsWith(path, extPath);
      if !starts {
        return Err(Error.KeyNotFound);
      }
      var remaining := new PathCursor(path);
      remaining.Consume(extPath.Size());
      ghost var p := remaining.View();
      Below(f, TreeRef(f, t), t, n);
      SubShapes(f, t, LogOf(history));
      ExtensionWrites(f, t, path.View(), mode, p);
      ghost var d, w, m := DeleteTrie(t.child, p, mode), DeleteWrites(f, t.child, p, mode), n - |t.path|;
      var below := DeleteNode(next, remaining.path, mode, f, t.child, m);
      DeleteShape(t.child, p, mode, m);
      r := HandleExtensionResult(extPath, below, f, m, old(history), d, w);
    }

    /** `handleUselessBranch` */
    method HandleUselessBranch(extPath: Path, infoPath: Path, ref: Reference, ghost f: OwnScheme, ghost u: Trie,
                               ghost n: int, ghost h: seq<Shape>, ghost w: set<Shape>)
      returns (r: Result<NodeDeletion>)
      requires extPath.Valid() && extPath.View() != [] && infoPath.Valid() && Sound() && ref == TreeRef(f, u)
      requires LastPut(f, u) && WellFormed(u, n) && n <= MAX_PATH
      requires Wrote(h, history, w) && ShapesOf(f, u) <= LogOf(history)
      modifies this`nodes, this`history
      ensures
        var m := Merge(extPath.View(), infoPath.View(), u);
        m != Empty && Deletes(f, r, h, Updated(m), {ShapeOf(f, m)} + w)
    {
      ghost var mid, m := history, Merge(extPath.View(), infoPath.View(), u);
      MergedShapes(f, extPath.View(), infoPath.View(), u, LogOf(history));
      var child := ReadLastPut(ref, f, u, n);
      var _, put := PutMerged(extPath, infoPath, ref, child.value, f, u);
      WroteTwice(h, mid, history, w, {ShapeOf(f, m)});
      r := Ok(NodeUpdated(put));
    }

    /** What the extension makes of the result for its child. */
    method HandleExtensionResult(extPath: Path, below: Result<NodeDeletion>, ghost f: OwnScheme, ghost n: int,
                                 ghost h: seq<Shape>, ghost d: DeleteResult, ghost w: set<Shape>)
      returns (r: Result<NodeDeletion>)
      requires extPath.Valid() && extPath.View() != [] && n <= MAX_PATH && Deletes(f, below, h, d, w)
      requires d.Updated? || d.UselessBranch? ==> WellFormed(d.t, n)
      modifies this`nodes, this`history
      ensures
        var e := AfterExtension(extPath.View(), d);
        Deletes(f, r, h, e, TopShape(f, e) + w)
    {
      match below {
        case Ok(NodeUpdated(ref)) =>
          ghost var mid, above := history, Extension(extPath.View(), d.t);
          var put := PutToStorage(ExtensionNode(extPath, ref), f, above);
          WroteTwice(h, mid, history, w, {ShapeOf(f, above)});
          r := Ok(NodeUpdated(put));
        case Ok(NodeUseless(infoPath, ref)) =>
          r := HandleUselessBranch(extPath, infoPath, ref, f, d.t, n, h, w);
        case _ => r := below;
      }
    }

    method DeleteFromBranch(bs: seq<Reference>, v: Bytes, path: Path, mode: Mode,
                            ghost f: OwnScheme, ghost t: Trie, ghost n: int)
      returns (r: Result<NodeDeletion>)
      requires path.Valid() && Sound() && ShapesOf(f, t) <= LogOf(history)
      requires t.Branch? && bs == Refs(f, t.kids) && v == t.value
      requires Stands(f, TreeRef(f, t), t, n)
      modifies this`nodes, this`history
      ensures Deletes(f, r, old(history), DeleteTrie(t, path.View(), mode), DeleteWrites(f, t, path.View(), mode))
      decreases t, 1
    {
      Below(f, TreeRef(f, t), t, n);
      SubShapes(f, t, LogOf(history));
      var branches := GetBranches(bs);
      if path.Size() != 0 {
        r := DeleteBelowBranch(branches, v, path, mode, f, t, n);
      } else if v == [] {
        r := Err(Error.KeyNotFound);
      } else {
        r := HandleDeletion(branches, [], None, mode, f, t.kids, n);
      }
    }

    method DeleteBelowBranch(branches: seq<Reference>, v: Bytes, path: Path, mode: Mode,
                             ghost f: OwnScheme, ghost t: Trie, ghost n: int)
      returns (r: Result<NodeDeletion>)
      requires path.Valid() && path.View() != [] && Sound() && ShapesOf(f, t) <= LogOf(history)
      requires t.Branch? && branches == Refs(f, t.kids) && v == t.value
      requires Stands(f, TreeRef(f, t), t, n)
      modifies this`nodes, this`history
      ensures Deletes(f, r, old(history), DeleteTrie(t, path.View(), mode), DeleteWrites(f, t, path.View(), mode))
      decreases t, 0
    {
      Below(f, TreeRef(f, t), t, n);
      SubShapes(f, t, LogOf(history));
      var first := path.At(0);
      var idx := first.value;
      OwnLength(f, t.kids[idx]);
      if branches[idx] == [] {
        return Err(Error.KeyNotFound);
      }
      var remaining := new PathCursor(path);
      remaining.Consume(1);
      ghost var p := remaining.View();
      BranchWrites(f, t, path.View(), mode, p);
      ghost var d, w := DeleteTrie(t.kids[idx], p, mode), DeleteWrites(f, t.kids[idx], p, mode);
      var below := DeleteNode(branches[idx], remaining.path, mode, f, t.kids[idx], n - 1);
      r := HandleBranchDeleteResult(branches, v, idx, below, mode, f, t.kids, n, old(history), d, w);
    }

    /** `HandleBranchDeleteResult` */
    method HandleBranchDeleteResult(branches: seq<Reference>, v: Bytes, idx: nibble, below: Result<NodeDeletion>,
                                    mode: Mode, ghost f: OwnScheme, ghost kids: seq<Trie>, ghost n: int,
                                    ghost h: seq<Shape>, ghost d: DeleteResult, ghost w: set<Shape>)
      returns (r: Result<NodeDeletion>)
      requires WellFormed(Branch(kids, v), n) && n <= MAX_PATH && branches == Refs(f, kids)
      requires KidShapes(f, kids) <= LogOf(h) && forall i :: 0 <= i < |kids| ==> Readable(f, StoreOf(h), kids[i])
      requires Deletes(f, below, h, d, w) && (d.Deleted? ==> w == {})
      modifies this`nodes, this`history
      ensures
        var e := AfterBranch(kids, v, idx, d, mode);
        Deletes(f, r, h, e, TopShape(f, e) + w)
    {
      match below {
        case Ok(NodeDeleted) =>
          assert nodes == StoreOf(h);
          r := HandleDeletion(branches, v, Some(idx), mode, f, kids, n);
        case Ok(NodeUpdated(ref)) => r := Relink(branches, v, idx, ref, f, kids, d.t, h, w);
        case Ok(NodeUseless(_, ref)) => r := Relink(branches, v, idx, ref, f, kids, d.t, h, w);
        case Err(_) => r := below;
      }
    }

    /** Puts the branch with a new reference in slot `idx`. */
    method Relink(branches: seq<Reference>, v: Bytes, idx: nibble, ref: Reference, ghost f: OwnScheme,
                  ghost kids: seq<Trie>, ghost u: Trie, ghost h: seq<Shape>, ghost w: set<Shape>)
      returns (r: Result<NodeDeletion>)
      requires |kids| == BRANCHES_NUM && branches == Refs(f, kids) && ref == TreeRef(f, u)
      requires Sound() && Wrote(h, history, w) && KidShapes(f, kids) <= LogOf(h) && ShapesOf(f, u) <= LogOf(history)
      modifies this`nodes, this`history
      ensures
        var b := Branch(kids[idx := u], v);
        Deletes(f, r, h, Updated(b), {ShapeOf(f, b)} + w)
    {
      ghost var mid, b := history, Branch(kids[idx := u], v);
      RefsUpdate(f, kids, idx, u);
      KidShapesUpdate(f, kids, idx, u);
      var put := PutToStorage(BranchNode(branches[idx := ref], v), f, b);
      WroteTwice(h, mid, history, w, {ShapeOf(f, b)});
      r := Ok(NodeUpdated(put));
    }

    /** `HandleBranchDeletion` */
    method HandleDeletion(branches: seq<Reference>, v: Bytes, dropped: Option<nibble>, mode: Mode,
                          ghost f: OwnScheme, ghost kids: seq<Trie>, ghost n: int)
      returns (r: Result<NodeDeletion>)
      requires WellFormed(Branch(kids, v), n) && n <= MAX_PATH && branches == Refs(f, kids)
      requires Sound() && KidShapes(f, kids) <= LogOf(history)
      requires forall i :: 0 <= i < |kids| ==> Readable(f, nodes, kids[i])
      modifies this`nodes, this`history
      ensures
        var d := HandleBranchDeletion(kids, v, dropped, mode);
        Deletes(f, r, old(history), d, TopShape(f, d))
    {
      var counted := branches;
      ghost var left := kids;
      if mode.Repaired? && dropped.Some? {
        counted := branches[dropped.value := []];
        left := kids[dropped.value := Empty];
        RefsUpdate(f, kids, dropped.value, Empty);
        KidShapesUpdate(f, kids, dropped.value, Empty);
      }
      var compacted := Compact(counted, v, f, left);
      if compacted.Some? {
        r := compacted.value;
      } else if mode.Repaired? {
        r := Keep(counted, v, f, left);
      } else {
        r := KeepAsWritten(branches, v, if dropped.Some? then dropped.value else mode.junk, f, kids);
      }
    }

    method Compact(counted: seq<Reference>, v: Bytes, ghost f: OwnScheme, ghost left: seq<Trie>)
      returns (r: Option<Result<NodeDeletion>>)
      requires |left| == BRANCHES_NUM && counted == Refs(f, left)
      requires Sound() && KidShapes(f, left) <= LogOf(history)
      requires forall i :: 0 <= i < |left| ==> Readable(f, nodes, left[i])
      modifies this`nodes, this`history
      ensures
        match Compacted(left, v)
        case Some(d) => r.Some? && Deletes(f, r.value, old(history), d, TopShape(f, d))
        case None => r == None && Sound() && history == old(history)
    {
      var validBranches := CountSlots(counted);
      OccupiedSlots(f, left);
      if validBranches == 0 && v == [] {
        r := Some(Ok(NodeDeleted));
      } else if validBranches == 0 {
        var leaf := PutToStorage(LeafNode(EMPTY_PATH, v), f, Leaf([], v));
        r := Some(Ok(NodeUseless(EMPTY_PATH, leaf)));
      } else if validBranches == 1 && v == [] {
        var built := BuildNewNodeFromLastBranch(counted, f, left);
        r := Some(built);
      } else {
        r := None;
      }
    }

    method KeepAsWritten(branches: seq<Reference>, v: Bytes, idx: byte, ghost f: OwnScheme, ghost kids: seq<Trie>)
      returns (r: Result<NodeDeletion>)
      requires branches == Refs(f, kids) && Sound() && KidShapes(f, kids) <= LogOf(history)
      modifies this`nodes, this`history
      ensures
        var d := if idx < |kids| then Updated(Branch(kids[idx := Empty], v)) else OutOfBounds;
        Deletes(f, r, old(history), d, TopShape(f, d))
    {
      if idx >= |branches| {
        return Err(BadAccess);
      }
      RefsUpdate(f, kids, idx, Empty);
      KidShapesUpdate(f, kids, idx, Empty);
      r := Keep(branches[idx := []], v, f, kids[idx := Empty]);
    }

    method Keep(branches: seq<Reference>, v: Bytes, ghost f: OwnScheme, ghost kids: seq<Trie>)
      returns (r: Result<NodeDeletion>)
      requires branches == Refs(f, kids) && Sound() && KidShapes(f, kids) <= LogOf(history)
      modifies this`nodes, this`history
      ensures Deletes(f, r, old(history), Updated(Branch(kids, v)), {ShapeOf(f, Branch(kids, v))})
    {
      var put := PutToStorage(BranchNode(branches, v), f, Branch(kids, v));
      r := Ok(NodeUpdated(put));
    }

    lemma OccupiedSlots(f: OwnScheme, kids: seq<Trie>)
      ensures (set i | 0 <= i < |Refs(f, kids)| && Refs(f, kids)[i] != []) == Occupied(kids)
    {
      forall i | 0 <= i < |kids| ensures Refs(f, kids)[i] != [] <==> kids[i] != Empty {
        OwnLength(f, kids[i]);
      }
    }

    method BuildNewNodeFromLastBranch(branches: seq<Reference>, ghost f: OwnScheme, ghost kids: seq<Trie>)
      returns (r: Result<NodeDeletion>)
      requires |kids| == BRANCHES_NUM && branches == Refs(f, kids)
      requires Sound() && KidShapes(f, kids) <= LogOf(history) && |Occupied(kids)| >= 1
      requires forall i :: 0 <= i < |kids| ==> Readable(f, nodes, kids[i])
      modifies this`nodes, this`history
      ensures Deletes(f, r, old(history), Collapse(kids), TopShape(f, Collapse(kids)))
    {
      var i := FindSlot(branches);
      IsFirstSlot(f, kids, i);
      var child := ReadNode(branches[i], f, kids[i]);
      var prefixNibble := Path([i], 1);
      assert prefixNibble.View() == [i];
      KidIsLogged(f, kids, i, LogOf(history));
      MergedShapes(f, [i], [], kids[i], LogOf(history));
      var path, put := PutMerged(prefixNibble, EMPTY_PATH, branches[i], child.value, f, kids[i]);
      r := Ok(NodeUseless(path, put));
    }

    lemma IsFirstSlot(f: OwnScheme, kids: seq<Trie>, i: nat)
      requires |Occupied(kids)| >= 1 && i <= |kids|
      requires i < |kids| ==> Refs(f, kids)[i] != []
      requires forall j :: 0 <= j < i ==> Refs(f, kids)[j] == []
      ensures i == FirstSlot(kids, 0) && i < |kids| && kids[i] != Empty
    {
      FirstSlotFound(kids);
      forall j | 0 <= j < |kids| ensures Refs(f, kids)[j] != [] <==> kids[j] != Empty {
        OwnLength(f, kids[j]);
      }
    }

    /** `remove`. Undefined behaviour shows as `BadAccess`; after it the model only keeps the store intact. */
    method Remove(key: Bytes, mode: Mode) returns (r: Result<()>)
      requires Valid() && Readable(Refer, nodes, tree)
      modifies this
      ensures Valid() && Wrote(old(history), history, DeleteWrites(Refer, old(tree), KeyPath(key), mode))
      ensures
        match RemoveTrie(old(tree), KeyPath(key), mode)
        case Ok(u) => r == Ok(()) && tree == u
        case Err(e) =>
          && r == Err(e) && (e != BadAccess ==> tree == old(tree))
          && (e == Error.KeyNotFound ==> root == old(root) && nodes == old(nodes) && history == old(history))
      ensures Proper(old(tree)) ==>
                (r == Err(Error.KeyNotFound) <==> old(tree) != Empty && !Holds(old(tree), KeyPath(key)))
      ensures old(tree) == Empty ==> r == Ok(()) && root == old(root) && nodes == old(nodes)
    {
      ghost var t := tree;
      r := RemovePath(PathFromKey(key), mode, Refer);
      if Proper(t) { Removal.KeyNotFoundExactly(t, KeyPath(key), mode, MAX_PATH); }
    }

    method RemovePath(path: Path, mode: Mode, ghost f: OwnScheme) returns (r: Result<()>)
      requires path.Valid() && Sound() && Stands(f, root, tree, MAX_PATH) && ShapesOf(f, tree) <= LogOf(history)
      modifies this
      ensures Sound() && Wrote(old(history), history, DeleteWrites(f, old(tree), path.View(), mode))
      ensures WellFormed(tree, MAX_PATH) && ShapesOf(f, tree) <= LogOf(history) && root == TreeRef(f, tree)
      ensures
        match RemoveTrie(old(tree), path.View(), mode)
        case Ok(u) => r == Ok(()) && tree == u
        case Err(e) =>
          && r == Err(e) && (e != BadAccess ==> tree == old(tree))
          && (e == Error.KeyNotFound ==> root == old(root) && nodes == old(nodes) && history == old(history))
      ensures old(tree) == Empty ==> root == old(root) && nodes == old(nodes)
    {
      OwnLength(f, tree);
      if root == [] {
        return Ok(());
      }
      ghost var d := DeleteTrie(tree, path.View(), mode);
      DeleteShape(tree, path.View(), mode, MAX_PATH);
      var result := DeleteNode(root, path, mode, f, tree, MAX_PATH);
      match result {
        case Err(e) => r := Err(e);
        case Ok(NodeDeleted) =>
          root, tree := [], Empty;
          r := if mode.Repaired? then Ok(()) else Err(BadAccess);
        case Ok(NodeUpdated(ref)) =>
          root, tree := ref, d.t;
          r := Ok(());
        case Ok(NodeUseless(_, ref)) =>
          if mode.Repaired? {
            root, tree := ref, d.t;
            r := Ok(());
          } else {
            r := Err(Error.RemoveError);
          }
      }
    }
  }
}
