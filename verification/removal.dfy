/** What `remove` does as written, exactly, and what it does once repaired. */
module Removal {
  import opened ByteStrings
  import opened Paths
  import opened Nodes
  import opened Tries
  import opened CanonicalForm
  import opened Deletion

  // ---- (i) and (ii) are the only ways to go astray ---------------------------------

  /** The deletion neither reports a missing path nor drops exactly `p`: some other lookup shows it. */
  predicate Astray(t: Trie, p: Nibbles, junk: byte, x: Nibbles)
  {
    var r := DeleteTrie(t, p, AsWritten(junk));
    r == OutOfBounds || ((r.Updated? || r.UselessBranch?) && !DroppedAt(Remainder(r), t, p, x))
  }

  lemma {:induction false} UnsafeGoesAstray(t: Trie, p: Nibbles, n: int) returns (junk: byte, x: Nibbles)
    requires WellFormed(t, n) && Proper(t) && Holds(t, p) && !Safe(t, p)
    ensures Astray(t, p, junk, x)
    decreases t
  {
    match t {
      case Extension(q, c) =>
        junk, x := UnsafeGoesAstray(c, p[|q|..], n - |q|);
        x := AstrayBelowExtension(q, c, p, junk, n, x);
      case Branch(kids, v) =>
        if p == [] {
          junk, x := AstrayValue(t, n);
        } else if !Safe(kids[p[0]], p[1..]) {
          junk, x := UnsafeGoesAstray(kids[p[0]], p[1..], n - 1);
          x := AstrayBelowBranch(kids, v, p, junk, x);
        } else {
          junk, x := 0, p;
          Resurrection(kids, v, p, junk, n);
        }
    }
  }

  lemma AstrayBelowExtension(q: Nibbles, c: Trie, p: Nibbles, junk: byte, n: int, y: Nibbles) returns (x: Nibbles)
    requires WellFormed(Extension(q, c), n) && q <= p && Astray(c, p[|q|..], junk, y)
    ensures Astray(Extension(q, c), p, junk, x)
  {
    x := q + y;
    var r := DeleteTrie(c, p[|q|..], AsWritten(junk));
    DeleteShape(c, p[|q|..], AsWritten(junk), n - |q|);
    assert p == q + p[|q|..] && x[|q|..] == y;
    if r.UselessBranch? { MergeLookup(q, r.path, r.t, x); }
  }

  lemma AstrayBelowBranch(kids: seq<Trie>, v: Bytes, p: Nibbles, junk: byte, y: Nibbles) returns (x: Nibbles)
    requires |kids| == BRANCHES_NUM && p != [] && kids[p[0]] != Empty && Astray(kids[p[0]], p[1..], junk, y)
    ensures Astray(Branch(kids, v), p, junk, x)
  {
    x := [p[0]] + y;
    assert p == [p[0]] + p[1..] && x[1..] == y;
  }

  /** (ii): the slot that happens to be cleared takes other keys with it. */
  lemma AstrayValue(t: Trie, n: int) returns (junk: byte, x: Nibbles)
    requires WellFormed(t, n) && Proper(t) && t.Branch? && t.value != [] && |Occupied(t.kids)| >= 2
    ensures Astray(t, [], junk, x)
  {
    var i :| i in Occupied(t.kids);
    junk := i;
    x := SlotKey(t, i, n);
    assert Find(t.kids[i := Empty][x[0]], x[1..]) == None;
  }

  /** (i): the branch is rebuilt from the very child that was deleted. */
  lemma Resurrection(kids: seq<Trie>, v: Bytes, p: Nibbles, junk: byte, n: int)
    requires WellFormed(Branch(kids, v), n) && Proper(Branch(kids, v)) && Holds(Branch(kids, v), p)
    requires p != [] && Only(kids[p[0]], p[1..]) && !SafeBranch(kids, v, Some(p[0]))
    ensures Astray(Branch(kids, v), p, junk, p)
  {
    HeldBelow(kids, v, p);
    DeletedIffOnly(kids[p[0]], p[1..], junk, n - 1);
    OneOccupied(kids, p[0]);
    CollapseLookup(kids, p);
  }

  /** The deletion of a path that is held drops exactly that path, whatever the uninitialized slot
      number contains, if and only if no visited branch meets (i) or (ii). */
  lemma AsWrittenDropsExactly(t: Trie, p: Nibbles, n: int)
    requires WellFormed(t, n) && Proper(t) && Holds(t, p)
    ensures (forall junk: byte, x :: !Astray(t, p, junk, x)) <==> Safe(t, p)
  {
    if Safe(t, p) {
      forall junk: byte, x ensures !Astray(t, p, junk, x) {
        DeleteLookup(t, p, AsWritten(junk), n, x);
        MissingIffAbsent(t, p, AsWritten(junk), n);
      }
    } else {
      var junk, x := UnsafeGoesAstray(t, p, n);
    }
  }

  // ---- `remove` as written ------------------------------------------------------------

  ghost predicate Correct(t: Trie, p: Nibbles, r: Result<Trie>)
  {
    r.Ok? && Dropped(r.value, t, p)
  }

  /** (d): the root collapses into a leaf or an extension, which `remove` refuses. */
  predicate CollapsesAtRoot(t: Trie, p: Nibbles)
  {
    t.Branch? && p == [] && |Occupied(t.kids)| == 1
  }

  /** `remove` of a key that is held works, whatever the uninitialized slot number contains, if and only
      if the walk is safe, something else is left, and the root does not collapse. */
  lemma RemoveAsWrittenExactly(t: Trie, p: Nibbles, n: int)
    requires WellFormed(t, n) && Proper(t) && Holds(t, p)
    ensures (forall junk: byte :: Correct(t, p, RemoveTrie(t, p, AsWritten(junk))))
       <==> Safe(t, p) && !Only(t, p) && !CollapsesAtRoot(t, p)
  {
    if Safe(t, p) {
      forall junk: byte
        ensures Correct(t, p, RemoveTrie(t, p, AsWritten(junk))) <==> !Only(t, p) && !CollapsesAtRoot(t, p)
      {
        RemoveWhenSafe(t, p, junk, n);
      }
      assert Correct(t, p, RemoveTrie(t, p, AsWritten(0))) <==> !Only(t, p) && !CollapsesAtRoot(t, p);
    } else {
      var junk, x := UnsafeGoesAstray(t, p, n);
      var r := RemoveTrie(t, p, AsWritten(junk));
      assert r.Ok? ==> !DroppedAt(r.value, t, p, x);
    }
  }

  lemma RemoveWhenSafe(t: Trie, p: Nibbles, junk: byte, n: int)
    requires WellFormed(t, n) && Proper(t) && Holds(t, p) && Safe(t, p)
    ensures Correct(t, p, RemoveTrie(t, p, AsWritten(junk))) <==> !Only(t, p) && !CollapsesAtRoot(t, p)
  {
    MissingIffAbsent(t, p, AsWritten(junk), n);
    DeletedIffOnly(t, p, junk, n);
    UselessIffCollapses(t, p, junk, n);
    var r := DeleteTrie(t, p, AsWritten(junk));
    forall x ensures (r.Deleted? || r.Updated? || r.UselessBranch?) && DroppedAt(Remainder(r), t, p, x) {
      DeleteLookup(t, p, AsWritten(junk), n, x);
    }
    assert DroppedAt(Remainder(r), t, p, p);
  }

  lemma UselessIffCollapses(t: Trie, p: Nibbles, junk: byte, n: int)
    requires WellFormed(t, n) && Proper(t) && Holds(t, p) && Safe(t, p)
    ensures DeleteTrie(t, p, AsWritten(junk)).UselessBranch? <==> CollapsesAtRoot(t, p)
  {
    DeleteShape(t, p, AsWritten(junk), n);
    if t.Branch? && p != [] {
      HeldBelow(t.kids, t.value, p);
      OneOccupied(t.kids, p[0]);
      DeletedIffOnly(t.kids[p[0]], p[1..], junk, n - 1);
    }
  }

  // ---- every answer of `remove` -----------------------------------------------------------

  /** In either mode the exception "Key not found" means that the trie holds something, but not this key. */
  lemma KeyNotFoundExactly(t: Trie, p: Nibbles, mode: Mode, n: int)
    requires WellFormed(t, n) && Proper(t)
    ensures RemoveTrie(t, p, mode) == Err(KeyNotFound) <==> t != Empty && !Holds(t, p)
    ensures t == Empty ==> RemoveTrie(t, p, mode) == Ok(Empty)
  {
    MissingIffAbsent(t, p, mode, n);
  }

  /** (ii): the walk ends at a branch that loses its value while it holds two slots or more. */
  predicate LosesValue(t: Trie, p: Nibbles)
  {
    match t
    case Empty => false
    case Leaf(_, _) => false
    case Extension(q, c) => q <= p && LosesValue(c, p[|q|..])
    case Branch(kids, v) =>
      if p == [] then v != [] && |Occupied(kids)| >= 2 else p[0] < |kids| && LosesValue(kids[p[0]], p[1..])
  }

  /** In terms of the map: the key is held and two longer keys part at it. */
  lemma {:induction false} LosesValueIffParts(t: Trie, p: Nibbles, n: int)
    requires WellFormed(t, n) && Proper(t)
    ensures LosesValue(t, p) <==> Holds(t, p) && PartAt(t, p)
    decreases t
  {
    if LosesValue(t, p) {
      var a, b := ValueParts(t, p, n);
    } else if Holds(t, p) && PartAt(t, p) {
      var a, b :| Parting(t, p, a, b);
      PartsLoseValue(t, p, a, b, n);
    }
  }

  lemma {:induction false} ValueParts(t: Trie, p: Nibbles, n: int) returns (a: Nibbles, b: Nibbles)
    requires WellFormed(t, n) && Proper(t) && LosesValue(t, p)
    ensures Holds(t, p) && Parting(t, p, a, b)
    decreases t
  {
    match t {
      case Extension(q, c) =>
        a, b := ValueParts(c, p[|q|..], n - |q|);
        assert p == q + p[|q|..];
        LookupExtension(q, c, p[|q|..]);
        LookupExtension(q, c, p[|q|..] + a);
        LookupExtension(q, c, p[|q|..] + b);
        assert q + (p[|q|..] + a) == p + a && q + (p[|q|..] + b) == p + b;
      case Branch(kids, v) =>
        if p == [] {
          var i, j := TwoSlots(kids);
          a := SlotKey(t, i, n);
          b := SlotKey(t, j, n);
          assert [] + a == a && [] + b == b;
        } else {
          a, b := ValueParts(kids[p[0]], p[1..], n - 1);
          assert p == [p[0]] + p[1..];
          LookupBranch(kids, v, p[0], p[1..]);
          LookupBranch(kids, v, p[0], p[1..] + a);
          LookupBranch(kids, v, p[0], p[1..] + b);
          assert [p[0]] + (p[1..] + a) == p + a && [p[0]] + (p[1..] + b) == p + b;
        }
    }
  }

  lemma {:induction false} PartsLoseValue(t: Trie, p: Nibbles, a: Nibbles, b: Nibbles, n: int)
    requires WellFormed(t, n) && Holds(t, p) && Parting(t, p, a, b)
    ensures LosesValue(t, p)
    decreases t
  {
    match t {
      case Leaf(q, _) => CommonPrefixOfTwo(p, a, b, q);
      case Extension(q, c) =>
        assert p == q + p[|q|..];
        assert (p + a)[|q|..] == p[|q|..] + a && (p + b)[|q|..] == p[|q|..] + b;
        PartsLoseValue(c, p[|q|..], a, b, n - |q|);
      case Branch(kids, v) =>
        if p != [] {
          assert (p + a)[1..] == p[1..] + a && (p + b)[1..] == p[1..] + b;
          PartsLoseValue(kids[p[0]], p[1..], a, b, n - 1);
        } else {
          assert p + a == a && p + b == b;
          HeldBelow(kids, v, a);
          HeldBelow(kids, v, b);
          TwoOccupied(kids, a[0], b[0]);
        }
    }
  }

  /** What the deletion of `p` takes away. */
  datatype Fate = Exactly | AndSlot(slot: byte) | Nothing

  predicate Gone(fate: Fate, p: Nibbles, x: Nibbles)
  {
    match fate
    case Exactly => x == p
    case AndSlot(slot) => x == p || (|p| < |x| && p <= x && x[|p|] == slot)
    case Nothing => false
  }

  /** Safe walks drop the key, (ii) drops whatever begins with the key and the uninitialized slot number as well,
      and (i) drops nothing at all. */
  function FateOf(t: Trie, p: Nibbles, junk: byte): (fate: Fate)
  {
    if Safe(t, p) then Exactly else if LosesValue(t, p) then AndSlot(junk) else Nothing
  }

  predicate Leaves(u: Trie, t: Trie, fate: Fate, p: Nibbles, x: Nibbles)
  {
    Lookup(u, x) == if Gone(fate, p, x) then None else Lookup(t, x)
  }

  /** What the deletion as written does to a key that is held, at path `x`. */
  predicate Effect(t: Trie, p: Nibbles, junk: byte, x: Nibbles)
  {
    var r := DeleteTrie(t, p, AsWritten(junk));
    && r != Missing
    && (r == OutOfBounds <==> LosesValue(t, p) && junk >= 16)
    && (r != OutOfBounds ==> Leaves(Remainder(r), t, FateOf(t, p, junk), p, x))
  }

  lemma {:induction false} AsWrittenEffect(t: Trie, p: Nibbles, junk: byte, n: int, x: Nibbles)
    requires WellFormed(t, n) && Proper(t) && Holds(t, p)
    ensures Effect(t, p, junk, x)
    decreases t
  {
    match t {
      case Leaf(_, _) =>
      case Extension(q, c) =>
        AsWrittenEffect(c, p[|q|..], junk, n - |q|, if q <= x then x[|q|..] else []);
        EffectBelowExtension(q, c, p, junk, n, x);
      case Branch(kids, v) =>
        if p == [] {
          ValueEffect(kids, v, junk, x);
        } else {
          HeldBelow(kids, v, p);
          AsWrittenEffect(kids[p[0]], p[1..], junk, n - 1, if x != [] then x[1..] else []);
          EffectBelowBranch(kids, v, p, junk, n, x);
        }
    }
  }

  lemma GoneBelow(fate: Fate, q: Nibbles, p: Nibbles, x: Nibbles)
    ensures Gone(fate, q + p, x) <==> q <= x && Gone(fate, p, x[|q|..])
  {
    if q <= x {
      assert x == q + x[|q|..];
      assert q + p <= x <==> p <= x[|q|..];
    } else {
      assert q <= q + p && (q + p <= x ==> q <= x);
    }
  }

  lemma EffectBelowExtension(q: Nibbles, c: Trie, p: Nibbles, junk: byte, n: int, x: Nibbles)
    requires WellFormed(Extension(q, c), n) && q <= p
    requires Effect(c, p[|q|..], junk, if q <= x then x[|q|..] else [])
    ensures Effect(Extension(q, c), p, junk, x)
  {
    var r := DeleteTrie(c, p[|q|..], AsWritten(junk));
    DeleteShape(c, p[|q|..], AsWritten(junk), n - |q|);
    assert p == q + p[|q|..];
    GoneBelow(FateOf(c, p[|q|..], junk), q, p[|q|..], x);
    if r.UselessBranch? { MergeLookup(q, r.path, r.t, x); }
  }

  lemma ValueEffect(kids: seq<Trie>, v: Bytes, junk: byte, x: Nibbles)
    requires |kids| == BRANCHES_NUM && v != []
    ensures Effect(Branch(kids, v), [], junk, x)
  {
    if |Occupied(kids)| <= 1 {
      HandleLookup(kids, [], None, AsWritten(junk), x);
    } else if junk < 16 && x != [] {
      assert Find(kids[junk := Empty][x[0]], x[1..]) == if x[0] == junk then None else Find(kids[x[0]], x[1..]);
    }
  }

  lemma SlotLeaves(kids: seq<Trie>, v: Bytes, p: Nibbles, u: Trie, fate: Fate, x: Nibbles)
    requires |kids| == BRANCHES_NUM && p != []
    requires Leaves(u, kids[p[0]], fate, p[1..], if x != [] then x[1..] else [])
    ensures Leaves(Branch(kids[p[0] := u], v), Branch(kids, v), fate, p, x)
  {
    assert p == [p[0]] + p[1..];
    GoneBelow(fate, [p[0]], p[1..], x);
  }

  lemma EffectBelowBranch(kids: seq<Trie>, v: Bytes, p: Nibbles, junk: byte, n: int, x: Nibbles)
    requires WellFormed(Branch(kids, v), n) && Proper(Branch(kids, v)) && p != [] && kids[p[0]] != Empty
    requires Effect(kids[p[0]], p[1..], junk, if x != [] then x[1..] else [])
    ensures Effect(Branch(kids, v), p, junk, x)
  {
    var c, rest := kids[p[0]], p[1..];
    var r := DeleteTrie(c, rest, AsWritten(junk));
    DeletedIffOnly(c, rest, junk, n - 1);
    if r == Deleted {
      SlotLostEffect(kids, v, p, junk, n, x);
    } else if r != OutOfBounds {
      SlotLeaves(kids, v, p, Remainder(r), FateOf(c, rest, junk), x);
    }
  }

  lemma SlotLostEffect(kids: seq<Trie>, v: Bytes, p: Nibbles, junk: byte, n: int, x: Nibbles)
    requires WellFormed(Branch(kids, v), n) && Proper(Branch(kids, v)) && p != [] && kids[p[0]] != Empty
    requires DeleteTrie(kids[p[0]], p[1..], AsWritten(junk)) == Deleted
    requires Effect(kids[p[0]], p[1..], junk, if x != [] then x[1..] else [])
    ensures Effect(Branch(kids, v), p, junk, x)
  {
    var c := kids[p[0]];
    DeletedIffOnly(c, p[1..], junk, n - 1);
    OneOccupied(kids, p[0]);
    OnlyIsSafe(c, p[1..], n - 1);
    if SafeBranch(kids, v, Some(p[0])) {
      SlotLeaves(kids, v, p, Empty, Exactly, x);
      HandleLookup(kids, v, Some(p[0]), AsWritten(junk), x);
    } else {
      CollapseLookup(kids, x);
    }
  }

  lemma {:induction false} OnlyIsSafe(t: Trie, p: Nibbles, n: int)
    requires WellFormed(t, n) && Only(t, p)
    ensures Safe(t, p) && !LosesValue(t, p)
    decreases t
  {
    if t.Extension? { OnlyIsSafe(t.child, p[|t.path|..], n - |t.path|); }
  }

  /** (i) at the root: the only slot is lost, and the child that was in it comes back as the new root. */
  predicate ComesBackAtRoot(t: Trie, p: Nibbles)
  {
    && t.Branch? && p != [] && t.value == [] && |Occupied(t.kids)| == 1
    && p[0] < |t.kids| && Only(t.kids[p[0]], p[1..])
  }

  lemma UselessExactly(t: Trie, p: Nibbles, junk: byte, n: int)
    requires WellFormed(t, n) && Proper(t) && Holds(t, p)
    ensures DeleteTrie(t, p, AsWritten(junk)).UselessBranch? <==> CollapsesAtRoot(t, p) || ComesBackAtRoot(t, p)
  {
    DeleteShape(t, p, AsWritten(junk), n);
    if t.Branch? && p != [] {
      HeldBelow(t.kids, t.value, p);
      OneOccupied(t.kids, p[0]);
      DeletedIffOnly(t.kids[p[0]], p[1..], junk, n - 1);
    }
  }

  predicate AllLeft(t: Trie, p: Nibbles, junk: byte, r: Result<Trie>, x: Nibbles)
  {
    r.Ok? ==> Leaves(r.value, t, FateOf(t, p, junk), p, x)
  }

  /** Every answer of `remove` as written for a key that is held: the two exceptions, exactly, and otherwise what
      is left at every path. */
  lemma RemoveAsWrittenAnswers(t: Trie, p: Nibbles, junk: byte, n: int)
    requires WellFormed(t, n) && Proper(t) && Holds(t, p)
    ensures
      var r := RemoveTrie(t, p, AsWritten(junk));
      && (r == Err(BadAccess) <==> Only(t, p) || (LosesValue(t, p) && junk >= 16))
      && (r == Err(RemoveError) <==> CollapsesAtRoot(t, p) || ComesBackAtRoot(t, p))
      && (r.Ok? || r.error == BadAccess || r.error == RemoveError)
      && (forall x :: AllLeft(t, p, junk, r, x))
  {
    var d := DeleteTrie(t, p, AsWritten(junk));
    DeletedIffOnly(t, p, junk, n);
    UselessExactly(t, p, junk, n);
    AsWrittenEffect(t, p, junk, n, p);
    forall x ensures AllLeft(t, p, junk, RemoveTrie(t, p, AsWritten(junk)), x) {
      AsWrittenEffect(t, p, junk, n, x);
    }
  }

  // ---- `remove` repaired ----------------------------------------------------------------

  /** On a canonical trie the repaired `remove` throws exactly when the key is absent; otherwise it
      drops that key alone and the trie is canonical again. */
  lemma RepairedRemove(t: Trie, p: Nibbles, n: int)
    requires WellFormed(t, n) && Canonical(t)
    ensures
      var r := RemoveTrie(t, p, Repaired);
      && (r.Err? <==> t != Empty && !Holds(t, p))
      && (r.Err? ==> r.error == KeyNotFound)
      && (r.Ok? ==> WellFormed(r.value, n) && Canonical(r.value) && Dropped(r.value, t, p))
  {
    CanonicalIsProper(t);
    MissingIffAbsent(t, p, Repaired, n);
    DeleteShape(t, p, Repaired, n);
    RepairedIsCanonical(t, p, n);
    forall x ensures Drops(t, p, Repaired, x) {
      DeleteLookup(t, p, Repaired, n, x);
    }
    var d := DeleteTrie(t, p, Repaired);
    assert d != Missing ==> Drops(t, p, Repaired, p);
    forall x ensures d != Missing ==> DroppedAt(Remainder(d), t, p, x) {
      assert Drops(t, p, Repaired, x);
    }
  }

  /** Setting an absent key and removing it again gives back the identical trie. */
  lemma SetThenRemove(t: Trie, p: Nibbles, v: Bytes, n: int)
    requires WellFormed(t, n) && Canonical(t) && !Holds(t, p)
    requires |p| <= n && 0 < |v| <= MAX_VALUE
    ensures RemoveTrie(Insert(t, p, v), p, Repaired) == Ok(t)
  {
    var u := Insert(t, p, v);
    InsertKeepsWellFormed(t, p, v, n);
    InsertKeepsCanonical(t, p, v, n);
    assert Holds(u, p) by { InsertLookup(t, p, v, n, p); }
    var r := RemoveTrie(u, p, Repaired);
    RepairedRemove(u, p, n);
    SetThenDropped(t, p, v, n, r.value);
    CanonicalIsUnique(r.value, t, n);
  }

  lemma SetThenDropped(t: Trie, p: Nibbles, v: Bytes, n: int, w: Trie)
    requires WellFormed(t, n) && !Holds(t, p) && Dropped(w, Insert(t, p, v), p)
    ensures SameMap(w, t)
  {
    forall x ensures Lookup(w, x) == Lookup(t, x) {
      InsertLookup(t, p, v, n, x);
      assert DroppedAt(w, Insert(t, p, v), p, x);
    }
  }

  // ---- runs of the code as written stay proper -------------------------------------------

  lemma HandleIsProper(kids: seq<Trie>, v: Bytes, dropped: Option<nibble>, mode: Mode, n: int)
    requires WellFormed(Branch(kids, v), n) && forall i :: 0 <= i < |kids| ==> Proper(kids[i])
    ensures Proper(Remainder(HandleBranchDeletion(kids, v, dropped, mode)))
  {
    var counted := if mode.Repaired? && dropped.Some? then kids[dropped.value := Empty] else kids;
    var i := FirstSlot(counted, 0);
    if |Occupied(counted)| == 1 && v == [] {
      FirstSlotFound(counted);
      MergeShape([i], counted[i], n);
    } else if mode.AsWritten? {
      var idx := if dropped.Some? then dropped.value else mode.junk;
      if idx < |kids| { ClearedWeight(kids, idx); }
    }
  }

  lemma ClearedWeight(kids: seq<Trie>, i: nat)
    requires i < |kids|
    ensures |Occupied(kids[i := Empty])| >= |Occupied(kids)| - 1
  {
    ClearedOccupied(kids, i);
  }

  lemma {:induction false} DeleteKeepsProper(t: Trie, p: Nibbles, mode: Mode, n: int)
    requires WellFormed(t, n) && Proper(t)
    ensures Proper(Remainder(DeleteTrie(t, p, mode)))
    decreases t
  {
    match t {
      case Empty =>
      case Leaf(_, _) =>
      case Extension(q, c) =>
        if q <= p {
          DeleteKeepsProper(c, p[|q|..], mode, n - |q|);
          DeleteShape(c, p[|q|..], mode, n - |q|);
          var r := DeleteTrie(c, p[|q|..], mode);
          if r.UselessBranch? { MergeShape(q, r.t, n); }
        }
      case Branch(kids, v) =>
        if p == [] {
          HandleIsProper(kids, [], None, mode, n);
        } else if kids[p[0]] != Empty {
          DeleteKeepsProper(kids[p[0]], p[1..], mode, n - 1);
          DeleteShape(kids[p[0]], p[1..], mode, n - 1);
          HandleIsProper(kids, v, Some(p[0]), mode, n);
          var r := DeleteTrie(kids[p[0]], p[1..], mode);
          if r.Updated? || r.UselessBranch? { RefilledOccupied(kids, p[0], r.t); }
        }
    }
  }

  // ---- a subtree that holds one path need not vanish -----------------------------------------

  /** A branch with one child and no value holds one path, and the deletion of that path brings it back. */
  lemma AloneIsNotEnough(v: Bytes, junk: byte, x: Nibbles)
    requires 0 < |v| <= MAX_VALUE
    ensures
      var t := Branch(NO_KIDS[1 := Leaf([], v)], []);
      && WellFormed(t, 1) && Proper(t) && (Holds(t, x) <==> x == [1]) && !Only(t, [1])
      && DeleteTrie(t, [1], AsWritten(junk)) == UselessBranch([1], Leaf([1], v))
  {
    var t := Branch(NO_KIDS[1 := Leaf([], v)], []);
    assert Occupied(t.kids) == {1};
    assert FirstSlot(t.kids, 0) == 1;
    var one: Nibbles := [1];
    assert one[1..] == [] && one + [] == one;
    AloneHolds(v, x);
  }

  lemma AloneHolds(v: Bytes, x: Nibbles)
    requires v != []
    ensures Holds(Branch(NO_KIDS[1 := Leaf([], v)], []), x) <==> x == [1]
  {
    var kids := NO_KIDS[1 := Leaf([], v)];
    if x != [] {
      assert x == [x[0]] + x[1..];
      var kid := kids[x[0]];
      assert kid == if x[0] == 1 then Leaf([], v) else Empty;
      assert Find(kid, x[1..]) == if x[0] == 1 && x[1..] == [] then Some(v) else None;
    }
  }
}
