/** `DeleteNode` on tries (mpt.cpp:185-389, 449-477), as written and as evidently intended. */
module Deletion {
  import opened ByteStrings
  import opened Paths
  import opened Nodes
  import opened Tries
  import opened CanonicalForm

  /** `AsWritten` is the code. It clears slot `idx` only after counting the slots, and when a branch loses
      its value `idx` was never assigned: `junk` is whatever it contains.
      `Repaired` clears the dropped slot before counting and clears none when only a value was dropped; at
      the root it accepts an emptied trie and a collapsed branch. */
  datatype Mode = AsWritten(junk: byte) | Repaired

  /** `Missing` is the exception "Key not found"; `OutOfBounds` an access outside the branch list. */
  datatype DeleteResult =
    | Missing
    | OutOfBounds
    | Deleted
    | Updated(t: Trie)
    | UselessBranch(path: Nibbles, t: Trie)

  /** A node hung below the nibbles `q`: `handleUselessBranch`, and the visitor of
      `BuildNewNodeFromLastBranch`. */
  function Merge(q: Nibbles, infoPath: Nibbles, u: Trie): (t: Trie)
  {
    match u
    case Empty => Empty
    case Leaf(r, v) => Leaf(q + r, v)
    case Extension(r, c) => Extension(q + r, c)
    case Branch(_, _) => Extension(q + infoPath, u)
  }

  /** `find_if` over the slots. */
  function FirstSlot(kids: seq<Trie>, from: nat): (i: nat)
    requires from <= |kids|
    ensures from <= i <= |kids|
    ensures i < |kids| ==> kids[i] != Empty
    ensures forall j :: from <= j < i ==> kids[j] == Empty
    decreases |kids| - from
  {
    if from == |kids| || kids[from] != Empty then from else FirstSlot(kids, from + 1)
  }

  /** `BuildNewNodeFromLastBranch` */
  function Collapse(kids: seq<Trie>): (r: DeleteResult)
    requires |kids| == BRANCHES_NUM && |Occupied(kids)| >= 1
    ensures r.UselessBranch?
  {
    FirstSlotFound(kids);
    var i := FirstSlot(kids, 0);
    var u := Merge([i], [], kids[i]);
    UselessBranch(u.path, u)
  }

  lemma FirstSlotFound(kids: seq<Trie>)
    requires |Occupied(kids)| >= 1
    ensures FirstSlot(kids, 0) in Occupied(kids)
  {
    var j :| j in Occupied(kids);
  }

  /** The branch gives way to a leaf or an extension, or vanishes, when it holds fewer than two things. */
  function Compacted(counted: seq<Trie>, v: Bytes): (r: Option<DeleteResult>)
    requires |counted| == BRANCHES_NUM
  {
    var validBranches := |Occupied(counted)|;
    if validBranches == 0 && v == [] then Some(Deleted)
    else if validBranches == 0 then Some(UselessBranch([], Leaf([], v)))
    else if validBranches == 1 && v == [] then Some(Collapse(counted))
    else None
  }

  /** `dropped` is the slot whose subtree was deleted, if it was not the value. */
  function HandleBranchDeletion(kids: seq<Trie>, v: Bytes, dropped: Option<nibble>, mode: Mode): (r: DeleteResult)
    requires |kids| == BRANCHES_NUM
  {
    var counted := if mode.Repaired? && dropped.Some? then kids[dropped.value := Empty] else kids;
    match Compacted(counted, v)
    case Some(r) => r
    case None =>
      match mode
      case Repaired => Updated(Branch(counted, v))
      case AsWritten(junk) =>
        var idx := if dropped.Some? then dropped.value else junk;
        if idx < |kids| then Updated(Branch(kids[idx := Empty], v)) else OutOfBounds
  }

  /** What an extension makes of the result for its child. */
  function AfterExtension(q: Nibbles, below: DeleteResult): (r: DeleteResult)
  {
    match below
    case Updated(u) => Updated(Extension(q, u))
    case UselessBranch(path, u) => Updated(Merge(q, path, u))
    case _ => below
  }

  /** `HandleBranchDeleteResult` */
  function AfterBranch(kids: seq<Trie>, v: Bytes, idx: nibble, below: DeleteResult, mode: Mode): (r: DeleteResult)
    requires |kids| == BRANCHES_NUM
  {
    match below
    case Deleted => HandleBranchDeletion(kids, v, Some(idx), mode)
    case Updated(u) => Updated(Branch(kids[idx := u], v))
    case UselessBranch(_, u) => Updated(Branch(kids[idx := u], v))
    case _ => below
  }

  function DeleteTrie(t: Trie, p: Nibbles, mode: Mode): (r: DeleteResult)
    decreases t
  {
    match t
    case Empty => Missing
    case Leaf(q, _) => if q == p then Deleted else Missing
    case Extension(q, c) =>
      if !(q <= p) then Missing
      else AfterExtension(q, DeleteTrie(c, p[|q|..], mode))
    case Branch(kids, v) =>
      if |kids| != BRANCHES_NUM then OutOfBounds
      else if p == [] then
        if v == [] then Missing else HandleBranchDeletion(kids, [], None, mode)
      else if kids[p[0]] == Empty then Missing
      else AfterBranch(kids, v, p[0], DeleteTrie(kids[p[0]], p[1..], mode), mode)
  }

  /** `remove` below the check for an uninitialized root: the exception thrown, or the new trie. */
  function RemoveTrie(t: Trie, p: Nibbles, mode: Mode): (r: Result<Trie>)
  {
    if t == Empty then Ok(Empty)
    else
      match DeleteTrie(t, p, mode)
      case Missing => Err(KeyNotFound)
      case OutOfBounds => Err(BadAccess)
      case Deleted => if mode.Repaired? then Ok(Empty) else Err(BadAccess)  // `*(result.info->ref)` without info
      case Updated(u) => Ok(u)
      case UselessBranch(_, u) => if mode.Repaired? then Ok(u) else Err(RemoveError)
  }

  /** What is left below a reference after the deletion. */
  function Remainder(r: DeleteResult): (t: Trie)
  {
    match r
    case Updated(u) => u
    case UselessBranch(_, u) => u
    case _ => Empty
  }

  /** At path `x`, `u` is what `t` becomes when `p` is dropped. */
  predicate DroppedAt(u: Trie, t: Trie, p: Nibbles, x: Nibbles)
  {
    Lookup(u, x) == if x == p then None else Lookup(t, x)
  }

  ghost predicate Dropped(u: Trie, t: Trie, p: Nibbles)
  {
    forall x :: DroppedAt(u, t, p, x)
  }

  // ---- when "Key not found" is thrown -------------------------------------------------

  /** In either mode the exception means exactly that the path holds nothing. */
  lemma {:induction false} MissingIffAbsent(t: Trie, p: Nibbles, mode: Mode, n: int)
    requires WellFormed(t, n) && Proper(t)
    ensures DeleteTrie(t, p, mode) == Missing <==> !Holds(t, p)
    decreases t
  {
    match t {
      case Empty =>
      case Leaf(_, _) =>
      case Extension(q, c) =>
        if q <= p { MissingIffAbsent(c, p[|q|..], mode, n - |q|); }
      case Branch(kids, v) =>
        if p != [] {
          if kids[p[0]] == Empty {
            assert Find(kids[p[0]], p[1..]) == None;
          } else {
            MissingIffAbsent(kids[p[0]], p[1..], mode, n - 1);
          }
        }
    }
  }

  // ---- shape ---------------------------------------------------------------------------

  lemma MergeShape(q: Nibbles, u: Trie, n: int)
    requires WellFormed(u, n - |q|) && u != Empty && q != []
    ensures WellFormed(Merge(q, [], u), n) && (Merge(q, [], u).Leaf? || Merge(q, [], u).Extension?)
    ensures Canonical(u) ==> Canonical(Merge(q, [], u))
    ensures Proper(u) ==> Proper(Merge(q, [], u))
  {
    assert q + [] == q;
    if u.Extension? {
      assert n - |q + u.path| == n - |q| - |u.path|;
    }
  }

  lemma HandleShape(kids: seq<Trie>, v: Bytes, dropped: Option<nibble>, mode: Mode, n: int)
    requires WellFormed(Branch(kids, v), n)
    ensures ShapeKept(true, HandleBranchDeletion(kids, v, dropped, mode), n)
  {
    var counted := if mode.Repaired? && dropped.Some? then kids[dropped.value := Empty] else kids;
    var i := FirstSlot(counted, 0);
    if i < |kids| {
      MergeShape([i], counted[i], n);
    }
  }

  /** The remainder is well formed; a branch stays a branch when the result is `Updated`, and
      `UselessBranch` only replaces a branch. */
  predicate ShapeKept(wasBranch: bool, r: DeleteResult, n: int)
  {
    && (r.Updated? ==> WellFormed(r.t, n) && r.t != Empty && (wasBranch ==> r.t.Branch?))
    && (r.UselessBranch? ==> wasBranch && WellFormed(r.t, n) && (r.t.Leaf? || r.t.Extension?))
  }

  lemma AfterExtensionShape(q: Nibbles, below: DeleteResult, n: int)
    requires q != [] && |q| <= n && ShapeKept(true, below, n - |q|)
    ensures ShapeKept(false, AfterExtension(q, below), n)
  {
    if below.UselessBranch? { MergeShape(q, below.t, n); }
  }

  lemma AfterBranchShape(kids: seq<Trie>, v: Bytes, idx: nibble, below: DeleteResult, mode: Mode, n: int)
    requires WellFormed(Branch(kids, v), n)
    requires below.Updated? || below.UselessBranch? ==> WellFormed(below.t, n - 1)
    ensures ShapeKept(true, AfterBranch(kids, v, idx, below, mode), n)
  {
    if below.Deleted? { HandleShape(kids, v, Some(idx), mode, n); }
  }

  lemma {:induction false} DeleteShape(t: Trie, p: Nibbles, mode: Mode, n: int)
    requires WellFormed(t, n)
    ensures ShapeKept(t.Branch?, DeleteTrie(t, p, mode), n)
    decreases t
  {
    match t {
      case Empty =>
      case Leaf(_, _) =>
      case Extension(q, c) =>
        if q <= p {
          DeleteShape(c, p[|q|..], mode, n - |q|);
          AfterExtensionShape(q, DeleteTrie(c, p[|q|..], mode), n);
        }
      case Branch(kids, v) =>
        if p == [] {
          HandleShape(kids, [], None, mode, n);
        } else if kids[p[0]] != Empty {
          DeleteShape(kids[p[0]], p[1..], mode, n - 1);
          AfterBranchShape(kids, v, p[0], DeleteTrie(kids[p[0]], p[1..], mode), mode, n);
        }
    }
  }

  lemma ClearedOccupied(kids: seq<Trie>, i: nat)
    requires i < |kids|
    ensures Occupied(kids[i := Empty]) == Occupied(kids) - {i}
  {
  }

  lemma RefilledOccupied(kids: seq<Trie>, i: nat, u: Trie)
    requires i < |kids| && kids[i] != Empty && u != Empty
    ensures Occupied(kids[i := u]) == Occupied(kids)
  {
  }

  lemma HandleIsCanonical(kids: seq<Trie>, v: Bytes, dropped: Option<nibble>, n: int)
    requires WellFormed(Branch(kids, v), n)
    requires forall i :: 0 <= i < |kids| ==> Canonical(kids[i])
    ensures Canonical(Remainder(HandleBranchDeletion(kids, v, dropped, Repaired)))
  {
    var counted := if dropped.Some? then kids[dropped.value := Empty] else kids;
    var i := FirstSlot(counted, 0);
    if i < |kids| {
      MergeShape([i], counted[i], n);
    }
  }

  /** The repaired deletion leaves a canonical trie. */
  lemma {:induction false} RepairedIsCanonical(t: Trie, p: Nibbles, n: int)
    requires WellFormed(t, n) && Canonical(t)
    ensures Canonical(Remainder(DeleteTrie(t, p, Repaired)))
    decreases t
  {
    match t {
      case Empty =>
      case Leaf(_, _) =>
      case Extension(q, c) =>
        if q <= p {
          RepairedIsCanonical(c, p[|q|..], n - |q|);
          DeleteShape(c, p[|q|..], Repaired, n - |q|);
          var r := DeleteTrie(c, p[|q|..], Repaired);
          if r.UselessBranch? { MergeShape(q, r.t, n); }
        }
      case Branch(kids, v) =>
        if p == [] {
          HandleIsCanonical(kids, [], None, n);
        } else if kids[p[0]] != Empty {
          RepairedIsCanonical(kids[p[0]], p[1..], n - 1);
          DeleteShape(kids[p[0]], p[1..], Repaired, n - 1);
          HandleIsCanonical(kids, v, Some(p[0]), n);
          var r := DeleteTrie(kids[p[0]], p[1..], Repaired);
          if r.Updated? || r.UselessBranch? { RefilledOccupied(kids, p[0], r.t); }
        }
    }
  }

  // ---- the map ------------------------------------------------------------------------

  lemma MergeLookup(q: Nibbles, infoPath: Nibbles, u: Trie, x: Nibbles)
    requires u.Branch? ==> infoPath == []
    ensures Lookup(Merge(q, infoPath, u), x) == if q <= x then Lookup(u, x[|q|..]) else None
  {
    if q <= x {
      assert x == q + x[|q|..];
      match u {
        case Empty =>
        case Leaf(r, _) => assert q + r == x ==> (q + r)[|q|..] == r;
        case Extension(r, c) =>
          assert q + r <= x <==> r <= x[|q|..];
          assert r <= x[|q|..] ==> x[|q|..][|r|..] == x[|q + r|..];
        case Branch(_, _) => assert q + [] == q;
      }
    } else {
      match u {
        case Empty =>
        case Leaf(r, _) => assert q <= q + r;
        case Extension(r, c) => assert q + r <= x ==> q <= x;
        case Branch(_, _) => assert q + [] == q;
      }
    }
  }

  lemma CollapseLookup(kids: seq<Trie>, x: Nibbles)
    requires |kids| == BRANCHES_NUM && |Occupied(kids)| == 1
    ensures Lookup(Collapse(kids).t, x) == Lookup(Branch(kids, []), x)
  {
    FirstSlotFound(kids);
    var i := FirstSlot(kids, 0);
    MergeLookup([i], [], kids[i], x);
    assert |Occupied(kids) - {i}| == 0;
    if x != [] && x[0] != i {
      assert x[0] !in Occupied(kids) - {i};
      assert Find(kids[x[0]], x[1..]) == None;
    }
  }

  /** The branch that is left once the slot or value has gone. */
  function Rest(kids: seq<Trie>, v: Bytes, dropped: Option<nibble>): (t: Trie)
    requires |kids| == BRANCHES_NUM
  {
    Branch(if dropped.Some? then kids[dropped.value := Empty] else kids, v)
  }

  /** The branches where the code as written goes astray: (i) it loses its only slot while it has no
      value, (ii) it loses its value while it holds two slots or more. */
  predicate SafeBranch(kids: seq<Trie>, v: Bytes, dropped: Option<nibble>)
  {
    if dropped.Some? then v != [] || |Occupied(kids)| >= 2 else |Occupied(kids)| <= 1
  }

  lemma HandleLookup(kids: seq<Trie>, v: Bytes, dropped: Option<nibble>, mode: Mode, x: Nibbles)
    requires |kids| == BRANCHES_NUM
    requires if dropped.Some? then kids[dropped.value] != Empty else v == []
    requires mode.Repaired? || SafeBranch(kids, v, dropped)
    ensures
      var r := HandleBranchDeletion(kids, v, dropped, mode);
      && (r.Deleted? || r.Updated? || r.UselessBranch?)
      && Lookup(Remainder(r), x) == Lookup(Rest(kids, v, dropped), x)
  {
    var rest := Rest(kids, v, dropped).kids;
    var counted := if mode.Repaired? then rest else kids;
    if dropped.Some? {
      OneOccupied(kids, dropped.value);
    }
    if |Occupied(counted)| == 0 {
      assert Occupied(counted) == {};
      if x != [] {
        assert x[0] !in Occupied(counted);
        assert Find(counted[x[0]], x[1..]) == None;
      }
    } else if |Occupied(counted)| == 1 && v == [] {
      CollapseLookup(counted, x);
    }
  }

  /** No visited branch meets (i) or (ii). */
  predicate Safe(t: Trie, p: Nibbles)
  {
    match t
    case Empty => true
    case Leaf(_, _) => true
    case Extension(q, c) => q <= p ==> Safe(c, p[|q|..])
    case Branch(kids, v) =>
      if p == [] then v == [] || SafeBranch(kids, v, None)
      else if p[0] < |kids| && kids[p[0]] != Empty then
        && Safe(kids[p[0]], p[1..])
        && (Only(kids[p[0]], p[1..]) ==> SafeBranch(kids, v, Some(p[0])))
      else true
  }

  /** Extensions alone lead from here to `p`, where a leaf ends or a branch holds nothing but its value. */
  predicate Only(t: Trie, p: Nibbles)
  {
    match t
    case Empty => false
    case Leaf(q, _) => q == p
    case Extension(q, c) => q <= p && Only(c, p[|q|..])
    case Branch(kids, _) => p == [] && Occupied(kids) == {}
  }

  lemma {:induction false} DeletedIffOnly(t: Trie, p: Nibbles, junk: byte, n: int)
    requires WellFormed(t, n) && Proper(t)
    ensures DeleteTrie(t, p, AsWritten(junk)) == Deleted <==> Only(t, p)
    decreases t
  {
    match t {
      case Empty =>
      case Leaf(_, _) =>
      case Extension(q, c) =>
        if q <= p { DeletedIffOnly(c, p[|q|..], junk, n - |q|); }
      case Branch(kids, v) =>
        if p != [] && kids[p[0]] != Empty {
          OneOccupied(kids, p[0]);
        }
    }
  }

  lemma {:induction false} OnlyHolds(t: Trie, p: Nibbles, n: int, x: Nibbles)
    requires WellFormed(t, n) && Proper(t) && Only(t, p)
    ensures Holds(t, x) <==> x == p
    decreases t
  {
    match t {
      case Leaf(_, _) =>
      case Extension(q, c) =>
        assert p == q + p[|q|..];
        if q <= x {
          assert x == q + x[|q|..];
          OnlyHolds(c, p[|q|..], n - |q|, x[|q|..]);
        }
      case Branch(kids, v) =>
        if x != [] {
          assert x[0] !in Occupied(kids);
          assert Find(kids[x[0]], x[1..]) == None;
        }
    }
  }

  /** `Deleted` is returned only when the subtree holds that one path. */
  lemma DeletedMeansAlone(t: Trie, p: Nibbles, junk: byte, n: int)
    requires WellFormed(t, n) && Proper(t) && DeleteTrie(t, p, AsWritten(junk)) == Deleted
    ensures forall x :: Holds(t, x) <==> x == p
  {
    DeletedIffOnly(t, p, junk, n);
    forall x ensures Holds(t, x) <==> x == p {
      OnlyHolds(t, p, n, x);
    }
  }

  /** Unless the path is missing, the repaired deletion always drops exactly the given path; the code as
      written does so when the walk is safe. */
  lemma {:induction false} DeleteLookup(t: Trie, p: Nibbles, mode: Mode, n: int, x: Nibbles)
    requires WellFormed(t, n) && Proper(t)
    requires mode.Repaired? || Safe(t, p)
    ensures Drops(t, p, mode, x)
    decreases t
  {
    match t {
      case Empty =>
      case Leaf(_, _) =>
      case Extension(q, c) =>
        if q <= p {
          var y := if q <= x then x[|q|..] else [];
          DeleteLookup(c, p[|q|..], mode, n - |q|, y);
          ExtensionDeleteLookup(q, c, p, mode, n, x);
        }
      case Branch(kids, v) =>
        if p == [] {
          if v != [] { HandleLookup(kids, [], None, mode, x); }
        } else if kids[p[0]] != Empty {
          var y := if x != [] then x[1..] else [];
          DeleteLookup(kids[p[0]], p[1..], mode, n - 1, y);
          BranchDeleteLookup(kids, v, p, mode, n, x);
        }
    }
  }

  /** What `DeleteLookup` states, at one path. */
  predicate Drops(t: Trie, p: Nibbles, mode: Mode, x: Nibbles)
  {
    var r := DeleteTrie(t, p, mode);
    r != Missing ==> (r.Deleted? || r.Updated? || r.UselessBranch?) && DroppedAt(Remainder(r), t, p, x)
  }

  lemma ExtensionDeleteLookup(q: Nibbles, c: Trie, p: Nibbles, mode: Mode, n: int, x: Nibbles)
    requires WellFormed(Extension(q, c), n) && q <= p
    requires Drops(c, p[|q|..], mode, if q <= x then x[|q|..] else [])
    ensures Drops(Extension(q, c), p, mode, x)
  {
    var r := DeleteTrie(c, p[|q|..], mode);
    DeleteShape(c, p[|q|..], mode, n - |q|);
    assert p == q + p[|q|..];
    assert q <= x ==> x == q + x[|q|..];
    if r.UselessBranch? { MergeLookup(q, r.path, r.t, x); }
  }

  /** A slot changes: what its subtree is said to hold, the branch holds. */
  lemma SlotLookup(kids: seq<Trie>, v: Bytes, p: Nibbles, u: Trie, x: Nibbles)
    requires |kids| == BRANCHES_NUM && p != []
    requires DroppedAt(u, kids[p[0]], p[1..], if x != [] then x[1..] else [])
    ensures DroppedAt(Branch(kids[p[0] := u], v), Branch(kids, v), p, x)
  {
    assert p == [p[0]] + p[1..];
    assert x != [] ==> x == [x[0]] + x[1..];
  }

  lemma BranchDeleteLookup(kids: seq<Trie>, v: Bytes, p: Nibbles, mode: Mode, n: int, x: Nibbles)
    requires WellFormed(Branch(kids, v), n) && Proper(Branch(kids, v)) && p != [] && kids[p[0]] != Empty
    requires mode.Repaired? || Safe(Branch(kids, v), p)
    requires Drops(kids[p[0]], p[1..], mode, if x != [] then x[1..] else [])
    ensures Drops(Branch(kids, v), p, mode, x)
  {
    var r := DeleteTrie(kids[p[0]], p[1..], mode);
    if r != Missing {
      SlotLookup(kids, v, p, Remainder(r), x);
    }
    if r.Deleted? {
      if mode.AsWritten? { DeletedIffOnly(kids[p[0]], p[1..], mode.junk, n - 1); }
      HandleLookup(kids, v, Some(p[0]), mode, x);
    }
  }
}
