/** When `remove` as written does exactly what was intended. */
module Agreement {
  import opened ByteStrings
  import opened Paths
  import opened Nodes
  import opened Tries
  import opened CanonicalForm
  import opened Deletion
  import opened Removal

  /** The code as written and the repaired code agree, whatever the uninitialized slot number contains. */
  ghost predicate Agree(t: Trie, p: Nibbles)
  {
    forall junk: byte :: DeleteTrie(t, p, AsWritten(junk)) == DeleteTrie(t, p, Repaired)
  }

  /** A branch that loses its value keeps one slot, and a branch that loses a slot keeps two things. */
  predicate Tidy(t: Trie, p: Nibbles)
  {
    match t
    case Empty => true
    case Leaf(_, _) => true
    case Extension(q, c) => q <= p ==> Tidy(c, p[|q|..])
    case Branch(kids, v) =>
      if p == [] then v == [] || |Occupied(kids)| == 1
      else if p[0] < |kids| && kids[p[0]] != Empty then
        && Tidy(kids[p[0]], p[1..])
        && (Only(kids[p[0]], p[1..]) ==> Weight(kids, v) >= 3)
      else true
  }

  /** Only a leaf can vanish without anything taking its place. */
  lemma DeletedIffLeaf(t: Trie, p: Nibbles, mode: Mode, n: int)
    requires WellFormed(t, n) && Canonical(t)
    ensures DeleteTrie(t, p, mode) == Deleted <==> t.Leaf? && t.path == p
    ensures Only(t, p) <==> t.Leaf? && t.path == p
  {
    if t.Branch? {
      BranchIsNotDeleted(t, p, mode, n);
    } else if t.Extension? && t.path <= p {
      BranchIsNotDeleted(t.child, p[|t.path|..], mode, n - |t.path|);
    }
  }

  /** On a canonical trie, in either mode, a subtree vanishes exactly when it holds that one path. */
  lemma DeletedIffAlone(t: Trie, p: Nibbles, mode: Mode, n: int)
    requires WellFormed(t, n) && Canonical(t)
    ensures DeleteTrie(t, p, mode) == Deleted <==> forall x :: Holds(t, x) <==> x == p
  {
    DeletedIffLeaf(t, p, mode, n);
    CanonicalIsProper(t);
    if t.Leaf? {
      assert Holds(t, t.path);
    } else if t.Branch? || t.Extension? {
      var a, b := ManyKeys(t, n);
    } else {
      assert !Holds(t, p);
    }
  }

  lemma BranchIsNotDeleted(t: Trie, p: Nibbles, mode: Mode, n: int)
    requires t.Branch? && WellFormed(t, n) && Canonical(t)
    ensures DeleteTrie(t, p, mode) != Deleted && !Only(t, p)
  {
    if p != [] && t.kids[p[0]] != Empty {
      ClearedOccupied(t.kids, p[0]);
    }
  }

  lemma InfoPath(t: Trie, p: Nibbles, mode: Mode, n: int)
    requires WellFormed(t, n)
    ensures DeleteTrie(t, p, mode).UselessBranch? ==> InfoIsPath(DeleteTrie(t, p, mode))
  {
    DeleteShape(t, p, mode, n);
  }

  predicate InfoIsPath(r: DeleteResult)
  {
    r.UselessBranch? && (r.t.Leaf? || r.t.Extension?) && r.path == r.t.path
  }

  // ---- nothing is lost on the way up -------------------------------------------------

  lemma PrependIsInjective(q: Nibbles, r: Nibbles, s: Nibbles)
    ensures q + r == q + s ==> r == s
    ensures q == q + s ==> s == []
  {
    assert (q + r)[|q|..] == r && (q + s)[|q|..] == s;
  }

  lemma AfterExtensionIsInjective(q: Nibbles, a: DeleteResult, b: DeleteResult, n: int)
    requires ShapeKept(true, a, n) && ShapeKept(true, b, n)
    requires (a.UselessBranch? ==> InfoIsPath(a)) && (b.UselessBranch? ==> InfoIsPath(b))
    requires AfterExtension(q, a) == AfterExtension(q, b)
    ensures a == b
  {
    if a.UselessBranch? && b.UselessBranch? {
      PrependIsInjective(q, a.t.path, b.t.path);
    } else if a.UselessBranch? {
      PrependIsInjective(q, [], a.t.path);
    } else if b.UselessBranch? {
      PrependIsInjective(q, [], b.t.path);
    }
  }

  lemma AfterBranchIsInjective(kids: seq<Trie>, v: Bytes, idx: nibble, a: DeleteResult, b: DeleteResult,
                               modeA: Mode, modeB: Mode, wasBranch: bool, n: int)
    requires |kids| == BRANCHES_NUM && ShapeKept(wasBranch, a, n) && ShapeKept(wasBranch, b, n)
    requires (a.UselessBranch? ==> InfoIsPath(a)) && (b.UselessBranch? ==> InfoIsPath(b))
    requires !a.Deleted? && !b.Deleted? && AfterBranch(kids, v, idx, a, modeA) == AfterBranch(kids, v, idx, b, modeB)
    ensures a == b
  {
    if (a.Updated? || a.UselessBranch?) && (b.Updated? || b.UselessBranch?) {
      assert kids[idx := a.t][idx] == kids[idx := b.t][idx];
    }
  }

  // ---- exactly when ----------------------------------------------------------------------

  lemma LosingASlot(kids: seq<Trie>, v: Bytes, idx: nibble, junk: byte, n: int)
    requires WellFormed(Branch(kids, v), n) && Canonical(Branch(kids, v)) && kids[idx] != Empty
    ensures HandleBranchDeletion(kids, v, Some(idx), AsWritten(junk))
            == HandleBranchDeletion(kids, v, Some(idx), Repaired)
       <==> Weight(kids, v) >= 3
  {
    ClearedOccupied(kids, idx);
  }

  lemma {:induction false} TidyAgrees(t: Trie, p: Nibbles, junk: byte, n: int)
    requires WellFormed(t, n) && Canonical(t) && Holds(t, p) && Tidy(t, p)
    ensures DeleteTrie(t, p, AsWritten(junk)) == DeleteTrie(t, p, Repaired)
    decreases t
  {
    match t {
      case Leaf(_, _) =>
      case Extension(q, c) => TidyAgrees(c, p[|q|..], junk, n - |q|);
      case Branch(kids, v) =>
        if p != [] {
          HeldBelow(kids, v, p);
          TidyAgrees(kids[p[0]], p[1..], junk, n - 1);
          DeletedIffLeaf(kids[p[0]], p[1..], Repaired, n - 1);
          if Only(kids[p[0]], p[1..]) { LosingASlot(kids, v, p[0], junk, n); }
        }
    }
  }

  lemma {:induction false} UntidyDiffers(t: Trie, p: Nibbles, n: int) returns (junk: byte)
    requires WellFormed(t, n) && Canonical(t) && Holds(t, p) && !Tidy(t, p)
    ensures DeleteTrie(t, p, AsWritten(junk)) != DeleteTrie(t, p, Repaired)
    decreases t
  {
    match t {
      case Extension(q, c) =>
        junk := UntidyDiffers(c, p[|q|..], n - |q|);
        DiffersBelowExtension(q, c, p, junk, n);
      case Branch(kids, v) =>
        if p == [] {
          junk := UntidyValue(kids, v, n);
        } else {
          HeldBelow(kids, v, p);
          if !Tidy(kids[p[0]], p[1..]) {
            junk := UntidyDiffers(kids[p[0]], p[1..], n - 1);
            DiffersBelowBranch(kids, v, p, junk, n);
          } else {
            junk := 0;
            DeletedIffLeaf(kids[p[0]], p[1..], AsWritten(junk), n - 1);
            DeletedIffLeaf(kids[p[0]], p[1..], Repaired, n - 1);
            LosingASlot(kids, v, p[0], junk, n);
          }
        }
    }
  }

  lemma UntidyValue(kids: seq<Trie>, v: Bytes, n: int) returns (junk: byte)
    requires WellFormed(Branch(kids, v), n) && v != [] && |Occupied(kids)| >= 2
    ensures HandleBranchDeletion(kids, [], None, AsWritten(junk)) != HandleBranchDeletion(kids, [], None, Repaired)
  {
    var i :| i in Occupied(kids);
    junk := i;
    assert kids[i := Empty][i] != kids[i];
  }

  lemma DiffersBelowExtension(q: Nibbles, c: Trie, p: Nibbles, junk: byte, n: int)
    requires WellFormed(Extension(q, c), n) && q <= p
    requires DeleteTrie(c, p[|q|..], AsWritten(junk)) != DeleteTrie(c, p[|q|..], Repaired)
    ensures DeleteTrie(Extension(q, c), p, AsWritten(junk)) != DeleteTrie(Extension(q, c), p, Repaired)
  {
    var rest, m := p[|q|..], n - |q|;
    var a, b := DeleteTrie(c, rest, AsWritten(junk)), DeleteTrie(c, rest, Repaired);
    DeleteShape(c, rest, AsWritten(junk), m);
    DeleteShape(c, rest, Repaired, m);
    InfoPath(c, rest, AsWritten(junk), m);
    InfoPath(c, rest, Repaired, m);
    if AfterExtension(q, a) == AfterExtension(q, b) { AfterExtensionIsInjective(q, a, b, m); }
  }

  lemma DiffersBelowBranch(kids: seq<Trie>, v: Bytes, p: Nibbles, junk: byte, n: int)
    requires WellFormed(Branch(kids, v), n) && Canonical(Branch(kids, v)) && p != [] && kids[p[0]] != Empty
    requires DeleteTrie(kids[p[0]], p[1..], AsWritten(junk)) != DeleteTrie(kids[p[0]], p[1..], Repaired)
    ensures DeleteTrie(Branch(kids, v), p, AsWritten(junk)) != DeleteTrie(Branch(kids, v), p, Repaired)
  {
    var c, rest := kids[p[0]], p[1..];
    var a, b := DeleteTrie(c, rest, AsWritten(junk)), DeleteTrie(c, rest, Repaired);
    DeleteShape(c, rest, AsWritten(junk), n - 1);
    DeleteShape(c, rest, Repaired, n - 1);
    InfoPath(c, rest, AsWritten(junk), n - 1);
    InfoPath(c, rest, Repaired, n - 1);
    DeletedIffLeaf(c, rest, AsWritten(junk), n - 1);
    DeletedIffLeaf(c, rest, Repaired, n - 1);
    if AfterBranch(kids, v, p[0], a, AsWritten(junk)) == AfterBranch(kids, v, p[0], b, Repaired) {
      AfterBranchIsInjective(kids, v, p[0], a, b, AsWritten(junk), Repaired, c.Branch?, n - 1);
    }
  }

  /** On a canonical trie the deletion of a key that is held agrees with the intended one if and only if
      the walk is tidy. */
  lemma AgreeIffTidy(t: Trie, p: Nibbles, n: int)
    requires WellFormed(t, n) && Canonical(t) && Holds(t, p)
    ensures Agree(t, p) <==> Tidy(t, p)
  {
    if Tidy(t, p) {
      forall junk: byte ensures DeleteTrie(t, p, AsWritten(junk)) == DeleteTrie(t, p, Repaired) {
        TidyAgrees(t, p, junk, n);
      }
    } else {
      var junk := UntidyDiffers(t, p, n);
    }
  }

  /** `remove` as written works on a canonical trie and leaves it canonical, whatever the uninitialized
      slot number contains, if and only if the walk is tidy, some other key is held and the root does
      not collapse. */
  lemma RemoveAgreesExactly(t: Trie, p: Nibbles, n: int)
    requires WellFormed(t, n) && Canonical(t) && Holds(t, p)
    ensures (forall junk: byte :: RemoveTrie(t, p, AsWritten(junk)) == RemoveTrie(t, p, Repaired))
       <==> Tidy(t, p) && !Only(t, p) && !CollapsesAtRoot(t, p)
  {
    if Tidy(t, p) {
      forall junk: byte
        ensures RemoveTrie(t, p, AsWritten(junk)) == RemoveTrie(t, p, Repaired)
           <==> !Only(t, p) && !CollapsesAtRoot(t, p)
      {
        TidyAgrees(t, p, junk, n);
        TidyRoot(t, p, n);
      }
      assert RemoveTrie(t, p, AsWritten(0)) == RemoveTrie(t, p, Repaired) <==> !Only(t, p) && !CollapsesAtRoot(t, p);
    } else {
      var junk := UntidyDiffers(t, p, n);
      UntidyRoot(t, p, junk, n);
    }
  }

  /** What becomes of the root on a tidy walk. */
  lemma TidyRoot(t: Trie, p: Nibbles, n: int)
    requires WellFormed(t, n) && Canonical(t) && Holds(t, p) && Tidy(t, p)
    ensures
      var d := DeleteTrie(t, p, Repaired);
      && (d.Deleted? <==> Only(t, p)) && (d.UselessBranch? <==> CollapsesAtRoot(t, p))
      && (d.Deleted? || d.UselessBranch? || d.Updated?)
  {
    CanonicalIsProper(t);
    MissingIffAbsent(t, p, Repaired, n);
    DeletedIffLeaf(t, p, Repaired, n);
    DeleteLookup(t, p, Repaired, n, p);
    DeleteShape(t, p, Repaired, n);
    if t.Branch? && p != [] {
      HeldBelow(t.kids, t.value, p);
      DeletedIffLeaf(t.kids[p[0]], p[1..], Repaired, n - 1);
      ClearedOccupied(t.kids, p[0]);
    }
  }

  lemma UntidyRoot(t: Trie, p: Nibbles, junk: byte, n: int)
    requires WellFormed(t, n) && Canonical(t) && Holds(t, p)
    requires DeleteTrie(t, p, AsWritten(junk)) != DeleteTrie(t, p, Repaired)
    ensures RemoveTrie(t, p, AsWritten(junk)) != RemoveTrie(t, p, Repaired)
  {
    CanonicalIsProper(t);
    MissingIffAbsent(t, p, Repaired, n);
    MissingIffAbsent(t, p, AsWritten(junk), n);
    DeleteLookup(t, p, Repaired, n, p);
    DeleteShape(t, p, Repaired, n);
    DeleteShape(t, p, AsWritten(junk), n);
    InfoPath(t, p, Repaired, n);
    InfoPath(t, p, AsWritten(junk), n);
  }
}
