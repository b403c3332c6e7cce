/** Whole runs of `set`, `get` and `remove`. */
module Runs {
  import opened ByteStrings
  import opened Hashing
  import opened Paths
  import opened Nodes
  import opened Tries
  import opened CanonicalForm
  import opened Deletion
  import opened Removal
  import opened Agreement
  import opened References
  import opened Merkle
  import opened Mpt

  /** Path-to-value maps: what a run is meant to maintain. */
  type Contents = map<Nibbles, Bytes>

  /** What `set` and `remove` do, by the path of the key. */
  datatype Op =
    | Put(path: Nibbles, value: Bytes)
    | Drop(path: Nibbles, mode: Mode)

  function After(t: Trie, op: Op): (u: Trie)
  {
    match op
    case Put(_, v) => Insert(t, op.path, v)
    case Drop(_, mode) =>
      match RemoveTrie(t, op.path, mode)
      case Ok(u) => u
      case Err(_) => t
  }

  function RunTrie(ops: seq<Op>): (t: Trie)
  {
    if ops == [] then Empty else After(RunTrie(ops[..|ops| - 1]), ops[|ops| - 1])
  }

  function RunMap(ops: seq<Op>): (m: Contents)
  {
    if ops == [] then map[]
    else
      var m, op := RunMap(ops[..|ops| - 1]), ops[|ops| - 1];
      if op.Put? then m[op.path := op.value] else m - {op.path}
  }

  /** The nodes an operation writes. */
  ghost function Writes(t: Trie, op: Op): (s: set<Shape>)
  {
    match op
    case Put(_, _) => ShapesOf(Refer, After(t, op))
    case Drop(_, mode) => DeleteWrites(Refer, t, op.path, mode)
  }

  ghost function RunLog(ops: seq<Op>): (log: set<Shape>)
  {
    if ops == [] then {}
    else RunLog(ops[..|ops| - 1]) + Writes(RunTrie(ops[..|ops| - 1]), ops[|ops| - 1])
  }

  /** The operation does not meet a departure of `remove` as written, and sets no empty value. */
  predicate Fits(t: Trie, op: Op)
  {
    var p := op.path;
    match op
    case Put(_, v) => |p| <= MAX_PATH && 0 < |v| <= MAX_VALUE
    case Drop(_, Repaired) => true
    case Drop(_, AsWritten(_)) => !Holds(t, p) || (Safe(t, p) && !Only(t, p) && !CollapsesAtRoot(t, p))
  }

  predicate Admissible(ops: seq<Op>)
  {
    ops != [] ==> Admissible(ops[..|ops| - 1]) && Fits(RunTrie(ops[..|ops| - 1]), ops[|ops| - 1])
  }

  /** The stronger condition under which path compression stays complete. */
  predicate FitsTidily(t: Trie, op: Op)
  {
    && Fits(t, op)
    && (op.Drop? && op.mode.AsWritten? && Holds(t, op.path) ==> Tidy(t, op.path))
  }

  predicate Orderly(ops: seq<Op>)
  {
    ops != [] ==> Orderly(ops[..|ops| - 1]) && FitsTidily(RunTrie(ops[..|ops| - 1]), ops[|ops| - 1])
  }

  function Answer(m: Contents, x: Nibbles): (r: Option<Bytes>)
  {
    if x in m then Some(m[x]) else None
  }

  ghost predicate Represents(t: Trie, m: Contents)
  {
    forall x :: Lookup(t, x) == Answer(m, x)
  }

  // ---- refinement --------------------------------------------------------------------

  lemma {:induction false} InsertKeepsProper(t: Trie, p: Nibbles, v: Bytes, n: int)
    requires WellFormed(t, n) && Proper(t) && v != []
    ensures Proper(Insert(t, p, v))
    decreases t
  {
    match t {
      case Empty =>
      case Leaf(q, w) => InsertKeepsCanonical(t, p, v, n); CanonicalIsProper(Insert(t, p, v));
      case Extension(q, c) =>
        if q <= p {
          InsertKeepsProper(c, p[|q|..], v, n - |q|);
        } else {
          NotAPrefix(p, q);
          var k := CommonLen(p, q);
          OneOccupied(SplitExtension(p[k..], v, q[k..], c).kids, q[k]);
        }
      case Branch(kids, w) =>
        if p != [] {
          InsertKeepsProper(kids[p[0]], p[1..], v, n - 1);
          InsertIsNotEmpty(kids[p[0]], p[1..], v);
          SubsetSize(Occupied(kids), Occupied(kids[p[0] := Insert(kids[p[0]], p[1..], v)]));
        }
    }
  }

  lemma PutStep(t: Trie, m: Contents, op: Op)
    requires op.Put? && WellFormed(t, MAX_PATH) && Proper(t) && Represents(t, m) && Fits(t, op)
    ensures WellFormed(After(t, op), MAX_PATH) && Proper(After(t, op))
    ensures Represents(After(t, op), m[op.path := op.value])
  {
    InsertKeepsWellFormed(t, op.path, op.value, MAX_PATH);
    InsertKeepsProper(t, op.path, op.value, MAX_PATH);
    forall x ensures Lookup(After(t, op), x) == Answer(m[op.path := op.value], x) {
      InsertLookup(t, op.path, op.value, MAX_PATH, x);
    }
  }

  lemma DropStep(t: Trie, m: Contents, op: Op)
    requires op.Drop? && WellFormed(t, MAX_PATH) && Proper(t) && Represents(t, m) && Fits(t, op)
    ensures WellFormed(After(t, op), MAX_PATH) && Proper(After(t, op))
    ensures Represents(After(t, op), m - {op.path})
  {
    var p := op.path;
    MissingIffAbsent(t, p, op.mode, MAX_PATH);
    if Holds(t, p) {
      DropWorks(t, p, op.mode);
      DeleteShape(t, p, op.mode, MAX_PATH);
      DeleteKeepsProper(t, p, op.mode, MAX_PATH);
      forall x ensures Lookup(After(t, op), x) == Answer(m - {p}, x) {
        assert DroppedAt(After(t, op), t, p, x);
      }
    }
  }

  lemma DropWorks(t: Trie, p: Nibbles, mode: Mode)
    requires WellFormed(t, MAX_PATH) && Proper(t) && Holds(t, p)
    requires mode.Repaired? || (Safe(t, p) && !Only(t, p) && !CollapsesAtRoot(t, p))
    ensures
      var r := RemoveTrie(t, p, mode);
      r.Ok? && Dropped(r.value, t, p) && r.value == Remainder(DeleteTrie(t, p, mode))
  {
    if mode.AsWritten? {
      RemoveWhenSafe(t, p, mode.junk, MAX_PATH);
    } else {
      MissingIffAbsent(t, p, Repaired, MAX_PATH);
      forall x ensures Drops(t, p, Repaired, x) {
        DeleteLookup(t, p, Repaired, MAX_PATH, x);
      }
      assert Drops(t, p, Repaired, p);
      forall x ensures DroppedAt(Remainder(DeleteTrie(t, p, Repaired)), t, p, x) {
        assert Drops(t, p, Repaired, x);
      }
    }
  }

  /** After every admissible run the trie holds exactly what the operations say. */
  lemma {:induction false} RunRefinesMap(ops: seq<Op>)
    requires Admissible(ops)
    ensures WellFormed(RunTrie(ops), MAX_PATH) && Proper(RunTrie(ops))
    ensures Represents(RunTrie(ops), RunMap(ops))
  {
    if ops != [] {
      var before, op := ops[..|ops| - 1], ops[|ops| - 1];
      RunRefinesMap(before);
      if op.Put? {
        PutStep(RunTrie(before), RunMap(before), op);
      } else {
        DropStep(RunTrie(before), RunMap(before), op);
      }
    }
  }

  // ---- canonical runs ------------------------------------------------------------------

  lemma {:induction false} OrderlyIsAdmissible(ops: seq<Op>)
    requires Orderly(ops)
    ensures Admissible(ops)
  {
    if ops != [] { OrderlyIsAdmissible(ops[..|ops| - 1]); }
  }

  lemma AfterIsCanonical(t: Trie, op: Op)
    requires WellFormed(t, MAX_PATH) && Canonical(t) && FitsTidily(t, op)
    ensures Canonical(After(t, op))
  {
    var p := op.path;
    match op {
      case Put(_, v) => InsertKeepsCanonical(t, p, v, MAX_PATH);
      case Drop(_, mode) =>
        CanonicalIsProper(t);
        RepairedRemove(t, p, MAX_PATH);
        MissingIffAbsent(t, p, mode, MAX_PATH);
        if Holds(t, p) && mode.AsWritten? { RemoveAgreesExactly(t, p, MAX_PATH); }
    }
  }

  lemma {:induction false} RunIsCanonical(ops: seq<Op>)
    requires Orderly(ops)
    ensures Canonical(RunTrie(ops)) && WellFormed(RunTrie(ops), MAX_PATH)
  {
    OrderlyIsAdmissible(ops);
    RunRefinesMap(ops);
    if ops != [] {
      RunIsCanonical(ops[..|ops| - 1]);
      AfterIsCanonical(RunTrie(ops[..|ops| - 1]), ops[|ops| - 1]);
    }
  }

  /** The final map alone decides the trie and so the root bytes: the order of the operations, what was
      overwritten and what was removed again leave no trace. */
  lemma HistoryIndependence(ops: seq<Op>, others: seq<Op>)
    requires Orderly(ops) && Orderly(others) && RunMap(ops) == RunMap(others)
    ensures RunTrie(ops) == RunTrie(others) && RefOf(RunTrie(ops)) == RefOf(RunTrie(others))
    ensures RefOf(RunTrie(ops)) == [] <==> RunMap(ops) == map[]
  {
    RunIsCanonical(ops);
    RunIsCanonical(others);
    OrderlyIsAdmissible(ops);
    OrderlyIsAdmissible(others);
    RunRefinesMap(ops);
    RunRefinesMap(others);
    var t, u := RunTrie(ops), RunTrie(others);
    forall x ensures Lookup(t, x) == Lookup(u, x) {
      assert Lookup(t, x) == Answer(RunMap(ops), x);
      assert Lookup(u, x) == Answer(RunMap(others), x);
    }
    CanonicalIsUnique(t, u, MAX_PATH);
    EmptyRoot(ops);
  }

  lemma EmptyRoot(ops: seq<Op>)
    requires Admissible(ops)
    ensures RefOf(RunTrie(ops)) == [] <==> RunMap(ops) == map[]
    ensures RunTrie(ops) == Empty <==> RunMap(ops) == map[]
  {
    RunRefinesMap(ops);
    ReferIsBounded();
    RefLength(Refer, RunTrie(ops));
    if RunTrie(ops) == Empty {
      forall x ensures x !in RunMap(ops) {
        assert Lookup(RunTrie(ops), x) == Answer(RunMap(ops), x);
      }
    } else {
      var p := SomeKey(RunTrie(ops), MAX_PATH);
    }
  }

  // ---- the root commits to the map -------------------------------------------------------

  /** Nothing is left below a reference that was neither there before nor written by the deletion. */
  lemma {:induction false} RemainderIsWritten(f: Scheme, t: Trie, p: Nibbles, mode: Mode, n: int, log: set<Shape>)
    requires WellFormed(t, n) && ShapesOf(f, t) + DeleteWrites(f, t, p, mode) <= log
    ensures ShapesOf(f, Remainder(DeleteTrie(t, p, mode))) <= log
    decreases t, 1
  {
    match t {
      case Empty =>
      case Leaf(_, _) =>
      case Extension(_, _) => if t.path <= p { RemainderBelowExtension(f, t, p, mode, n, log); }
      case Branch(kids, v) =>
        if p == [] {
          if v != [] { HandledIsWritten(f, kids, [], None, mode, log); }
        } else if kids[p[0]] != Empty {
          RemainderBelowBranch(f, t, p, mode, n, log);
        }
    }
  }

  lemma RemainderBelowExtension(f: Scheme, t: Trie, p: Nibbles, mode: Mode, n: int, log: set<Shape>)
    requires t.Extension? && t.path <= p
    requires WellFormed(t, n) && ShapesOf(f, t) + DeleteWrites(f, t, p, mode) <= log
    ensures ShapesOf(f, Remainder(DeleteTrie(t, p, mode))) <= log
    decreases t, 0
  {
    var rest, m := p[|t.path|..], n - |t.path|;
    var d := DeleteTrie(t.child, rest, mode);
    ExtensionWrites(f, t, p, mode, rest);
    if d.Updated? || d.UselessBranch? {
      DeleteShape(t.child, rest, mode, m);
      RemainderIsWritten(f, t.child, rest, mode, m, log);
      LinkIsWritten(f, t.path, d, log);
    }
  }

  lemma RemainderBelowBranch(f: Scheme, t: Trie, p: Nibbles, mode: Mode, n: int, log: set<Shape>)
    requires t.Branch? && p != [] && |t.kids| == BRANCHES_NUM && t.kids[p[0]] != Empty
    requires WellFormed(t, n) && ShapesOf(f, t) + DeleteWrites(f, t, p, mode) <= log
    ensures ShapesOf(f, Remainder(DeleteTrie(t, p, mode))) <= log
    decreases t, 0
  {
    var kid, rest, m := t.kids[p[0]], p[1..], n - 1;
    var d, e := DeleteTrie(kid, rest, mode), DeleteTrie(t, p, mode);
    BranchWrites(f, t, p, mode, rest);
    if e.Updated? || e.UselessBranch? {
      assert KidShapes(f, t.kids) <= log && TopShape(f, e) <= log;
      if d.Updated? || d.UselessBranch? {
        KidIsLogged(f, t.kids, p[0], log);
        RemainderIsWritten(f, kid, rest, mode, m, log);
      }
      SlotIsWritten(f, t.kids, t.value, p[0], d, mode, log);
    }
  }

  lemma LinkIsWritten(f: Scheme, q: Nibbles, d: DeleteResult, log: set<Shape>)
    requires (d.Updated? || d.UselessBranch?) && d.t != Empty
    requires ShapesOf(f, d.t) + TopShape(f, AfterExtension(q, d)) <= log
    ensures ShapesOf(f, Remainder(AfterExtension(q, d))) <= log
  {
    if d.UselessBranch? { MergedShapes(f, q, d.path, d.t, log); }
  }

  lemma SlotIsWritten(f: Scheme, kids: seq<Trie>, v: Bytes, idx: nibble, d: DeleteResult, mode: Mode, log: set<Shape>)
    requires |kids| == BRANCHES_NUM && KidShapes(f, kids) <= log
    requires (d.Updated? || d.UselessBranch? ==> ShapesOf(f, d.t) <= log)
    requires TopShape(f, AfterBranch(kids, v, idx, d, mode)) <= log
    ensures ShapesOf(f, Remainder(AfterBranch(kids, v, idx, d, mode))) <= log
  {
    if d.Deleted? {
      HandledIsWritten(f, kids, v, Some(idx), mode, log);
    } else if d.Updated? || d.UselessBranch? {
      KidShapesUpdate(f, kids, idx, d.t);
    }
  }

  lemma HandledIsWritten(f: Scheme, kids: seq<Trie>, v: Bytes, dropped: Option<nibble>, mode: Mode, log: set<Shape>)
    requires |kids| == BRANCHES_NUM && KidShapes(f, kids) <= log
    requires TopShape(f, HandleBranchDeletion(kids, v, dropped, mode)) <= log
    ensures ShapesOf(f, Remainder(HandleBranchDeletion(kids, v, dropped, mode))) <= log
  {
    var counted := if mode.Repaired? && dropped.Some? then kids[dropped.value := Empty] else kids;
    if dropped.Some? { KidShapesUpdate(f, kids, dropped.value, Empty); }
    if mode.AsWritten? && mode.junk < |kids| { KidShapesUpdate(f, kids, mode.junk, Empty); }
    var i := FirstSlot(counted, 0);
    if i < |kids| {
      KidIsLogged(f, counted, i, log);
      MergedShapes(f, [i], [], counted[i], log);
    }
  }

  lemma {:induction false} RunIsLogged(ops: seq<Op>)
    requires Admissible(ops)
    ensures ShapesOf(Refer, RunTrie(ops)) <= RunLog(ops)
  {
    if ops != [] {
      var before, op := ops[..|ops| - 1], ops[|ops| - 1];
      RunIsLogged(before);
      if op.Drop? {
        RunRefinesMap(before);
        RemainderIsWritten(Refer, RunTrie(before), op.path, op.mode, MAX_PATH, RunLog(ops));
      }
    }
  }

  /** When none of the nodes written by two runs collide, equal roots mean equal maps, and for runs that
      keep the canonical form equal maps mean equal roots. */
  lemma RootIffContents(ops: seq<Op>, others: seq<Op>, log: set<Shape>)
    requires Admissible(ops) && Admissible(others)
    requires RunLog(ops) <= log && RunLog(others) <= log && CollisionFree(log)
    ensures RefOf(RunTrie(ops)) == RefOf(RunTrie(others)) ==> RunMap(ops) == RunMap(others)
    ensures Orderly(ops) && Orderly(others) && RunMap(ops) == RunMap(others)
            ==> RefOf(RunTrie(ops)) == RefOf(RunTrie(others))
  {
    RunRefinesMap(ops);
    RunRefinesMap(others);
    if RefOf(RunTrie(ops)) == RefOf(RunTrie(others)) {
      RunIsLogged(ops);
      RunIsLogged(others);
      RootCommits(RunTrie(ops), RunTrie(others), MAX_PATH, log);
      SameAnswers(RunTrie(ops), RunMap(ops), RunMap(others));
    }
    if Orderly(ops) && Orderly(others) && RunMap(ops) == RunMap(others) {
      HistoryIndependence(ops, others);
    }
  }

  lemma SameAnswers(t: Trie, m: Contents, m': Contents)
    requires Represents(t, m) && Represents(t, m')
    ensures m == m'
  {
    forall x ensures Answer(m, x) == Answer(m', x) {
      assert Lookup(t, x) == Answer(m, x);
    }
    forall x ensures x in m <==> x in m' {
      assert Answer(m, x) == Answer(m', x);
    }
    forall x | x in m ensures m[x] == m'[x] {
      assert Answer(m, x) == Answer(m', x);
    }
  }

  // ---- runs of the class -----------------------------------------------------------------

  predicate PartingKeys(m: Contents, p: Nibbles, a: Nibbles, b: Nibbles)
  {
    p + a in m && p + b in m && a != [] && Diverge(a, b)
  }

  /** What `get` answers, in terms of the map alone: empty bytes where two keys part. */
  ghost function GetAnswer(m: Contents, p: Nibbles): (r: Result<Bytes>)
  {
    if m == map[] then Err(NotInitialized)
    else if p in m then Ok(m[p])
    else if exists a, b :: PartingKeys(m, p, a, b) then Ok([])
    else Err(KeyNotFound)
  }

  lemma SameParting(t: Trie, m: Contents, p: Nibbles)
    requires Represents(t, m)
    ensures PartAt(t, p) <==> exists a, b :: PartingKeys(m, p, a, b)
  {
    forall a, b ensures Parting(t, p, a, b) <==> PartingKeys(m, p, a, b) {
      assert Lookup(t, p + a) == Answer(m, p + a) && Lookup(t, p + b) == Answer(m, p + b);
    }
  }

  lemma GetAnswers(ops: seq<Op>, p: Nibbles)
    requires Orderly(ops)
    ensures
      var t := RunTrie(ops);
      GetAnswer(RunMap(ops), p) ==
      if t == Empty then Err(NotInitialized)
      else match Find(t, p) case Some(v) => Ok(v) case None => Err(KeyNotFound)
  {
    var t, m := RunTrie(ops), RunMap(ops);
    RunIsCanonical(ops);
    OrderlyIsAdmissible(ops);
    RunRefinesMap(ops);
    EmptyRoot(ops);
    assert Lookup(t, p) == Answer(m, p);
    EmptyAnswer(t, p, MAX_PATH);
    SameParting(t, m, p);
  }

  lemma {:induction false} LogGrows(ops: seq<Op>, i: nat)
    requires i <= |ops|
    ensures RunLog(ops[..i]) <= RunLog(ops)
    ensures Admissible(ops) ==> Admissible(ops[..i])
    decreases |ops| - i
  {
    if i < |ops| {
      LogGrows(ops, i + 1);
      assert ops[..i + 1][..i] == ops[..i];
    } else {
      assert ops[..i] == ops;
    }
  }

  /** A call of the class. */
  datatype Call =
    | SetCall(key: Bytes, value: Bytes)
    | RemoveCall(key: Bytes, mode: Mode)
  {
    function Op(): (op: Op)
      ensures op.path == KeyPath(key)
    {
      match this
      case SetCall(_, v) => Put(KeyPath(key), v)
      case RemoveCall(_, mode) => Drop(KeyPath(key), mode)
    }
  }

  function OpsOf(calls: seq<Call>): (ops: seq<Op>)
    ensures |ops| == |calls| && forall i :: 0 <= i < |calls| ==> ops[i] == calls[i].Op()
  {
    seq(|calls|, i requires 0 <= i < |calls| => calls[i].Op())
  }

  method Apply(trie: MerklePatriciaTrie, call: Call, ghost op: Op)
    requires op == call.Op() && trie.Valid() && Proper(trie.tree) && Fits(trie.tree, op)
    requires CollisionFree(LogOf(trie.history))
    modifies trie
    ensures trie.Valid() && trie.tree == After(old(trie.tree), op)
    ensures LogOf(trie.history) == LogOf(old(trie.history)) + Writes(old(trie.tree), op)
  {
    trie.RootStands();
    match call {
      case SetCall(key, value) => trie.Set(key, value);
      case RemoveCall(key, mode) =>
        MissingIffAbsent(trie.tree, KeyPath(key), mode, MAX_PATH);
        if Holds(trie.tree, KeyPath(key)) { DropWorks(trie.tree, KeyPath(key), mode); }
        var _ := trie.Remove(key, mode);
    }
  }

  lemma NextOp(ops: seq<Op>, i: nat, log: set<Shape>)
    requires Admissible(ops) && RunLog(ops) <= log && CollisionFree(log) && i < |ops|
    ensures Proper(RunTrie(ops[..i])) && Fits(RunTrie(ops[..i]), ops[i]) && CollisionFree(RunLog(ops[..i]))
    ensures RunTrie(ops[..i + 1]) == After(RunTrie(ops[..i]), ops[i])
    ensures RunLog(ops[..i + 1]) == RunLog(ops[..i]) + Writes(RunTrie(ops[..i]), ops[i])
  {
    LogGrows(ops, i);
    LogGrows(ops, i + 1);
    FewerCollisions(RunLog(ops[..i]), log);
    RunRefinesMap(ops[..i]);
    assert ops[..i + 1][..i] == ops[..i];
  }

  /** The class goes through the run as the tries do. */
  method Replay(calls: seq<Call>, ghost ops: seq<Op>, ghost log: set<Shape>) returns (trie: MerklePatriciaTrie)
    requires Admissible(ops) && RunLog(ops) <= log && CollisionFree(log) && ops == OpsOf(calls)
    ensures fresh(trie) && trie.Valid() && trie.tree == RunTrie(ops)
    ensures trie.root == RefOf(RunTrie(ops)) && LogOf(trie.history) == RunLog(ops)
  {
    trie := new MerklePatriciaTrie();
    for i := 0 to |calls|
      invariant fresh(trie) && trie.Valid() && trie.tree == RunTrie(ops[..i])
      invariant LogOf(trie.history) == RunLog(ops[..i])
    {
      NextOp(ops, i, log);
      Apply(trie, calls[i], ops[i]);
    }
    assert ops[..|ops|] == ops;
  }

  /** `get` after a run. */
  method Ask(calls: seq<Call>, key: Bytes, ghost ops: seq<Op>, ghost log: set<Shape>) returns (r: Result<Bytes>)
    requires Orderly(ops) && RunLog(ops) <= log && CollisionFree(log) && ops == OpsOf(calls)
    ensures r == GetAnswer(RunMap(ops), KeyPath(key))
  {
    OrderlyIsAdmissible(ops);
    FewerCollisions(RunLog(ops), log);
    var trie := Replay(calls, ops, log);
    GetAnswers(ops, KeyPath(key));
    trie.RootStands();
    r := trie.Get(key, trie.tree);
  }

  /** `remove` after a run, in either mode: "Key not found" is thrown exactly for a key that the map does not have,
      unless the trie is empty. */
  method Discard(calls: seq<Call>, key: Bytes, mode: Mode, ghost ops: seq<Op>, ghost log: set<Shape>)
    returns (r: Result<()>)
    requires Admissible(ops) && RunLog(ops) <= log && CollisionFree(log) && ops == OpsOf(calls)
    ensures r == Err(Error.KeyNotFound) <==> RunMap(ops) != map[] && KeyPath(key) !in RunMap(ops)
    ensures RunMap(ops) == map[] ==> r == Ok(())
  {
    FewerCollisions(RunLog(ops), log);
    var trie := Replay(calls, ops, log);
    RunRefinesMap(ops);
    EmptyRoot(ops);
    assert Lookup(RunTrie(ops), KeyPath(key)) == Answer(RunMap(ops), KeyPath(key));
    trie.RootStands();
    r := trie.Remove(key, mode);
  }

  /** Every root of the past can still be read in the store, down to the last node, and stands for the
      trie it stood for. */
  lemma EarlierRootsPersist(trie: MerklePatriciaTrie, ops: seq<Op>, i: nat)
    requires trie.Valid() && Admissible(ops) && i <= |ops|
    requires LogOf(trie.history) == RunLog(ops) && CollisionFree(RunLog(ops))
    ensures trie.Stands(Refer, RefOf(RunTrie(ops[..i])), RunTrie(ops[..i]), MAX_PATH)
  {
    LogGrows(ops, i);
    RunIsLogged(ops[..i]);
    RunRefinesMap(ops[..i]);
    StoreOfIsBacked(trie.history);
    PastRootsPersist(trie.nodes, RunLog(ops), RunTrie(ops[..i]), MAX_PATH);
  }
}
