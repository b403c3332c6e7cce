/** The canonical trie of a map is unique, and what `get` answers is a matter of the map alone. */
module CanonicalForm {
  import opened ByteStrings
  import opened Paths
  import opened Nodes
  import opened Tries

  ghost predicate SameMap(t: Trie, u: Trie)
  {
    forall p :: Lookup(t, p) == Lookup(u, p)
  }

  predicate Holds(t: Trie, p: Nibbles) { Lookup(t, p).Some? }

  lemma LookupExtension(q: Nibbles, c: Trie, x: Nibbles)
    ensures Lookup(Extension(q, c), q + x) == Lookup(c, x)
  {
    assert (q + x)[|q|..] == x;
  }

  lemma LookupBranch(kids: seq<Trie>, v: Bytes, i: nibble, x: Nibbles)
    requires |kids| == BRANCHES_NUM
    ensures Lookup(Branch(kids, v), [i] + x) == Lookup(kids[i], x)
  {
    assert ([i] + x)[1..] == x;
  }

  lemma HeldBelow(kids: seq<Trie>, v: Bytes, p: Nibbles)
    requires |kids| == BRANCHES_NUM && p != [] && Holds(Branch(kids, v), p)
    ensures kids[p[0]] != Empty && Holds(kids[p[0]], p[1..])
  {
    assert Find(Branch(kids, v), p) == Find(kids[p[0]], p[1..]);
  }

  /** A trie that is not empty holds something. */
  lemma {:induction false} SomeKey(t: Trie, n: int) returns (p: Nibbles)
    requires WellFormed(t, n) && Proper(t) && t != Empty
    ensures Holds(t, p)
    decreases t
  {
    match t {
      case Leaf(q, _) => p := q;
      case Extension(q, c) =>
        var x := SomeKey(c, n - |q|);
        LookupExtension(q, c, x);
        p := q + x;
      case Branch(kids, v) =>
        if v != [] {
          p := [];
        } else {
          var i :| i in Occupied(kids);
          p := SlotKey(t, i, n);
        }
    }
  }

  lemma SlotKey(t: Trie, i: int, n: int) returns (p: Nibbles)
    requires WellFormed(t, n) && Proper(t) && t.Branch? && i in Occupied(t.kids)
    ensures Holds(t, p) && p != [] && p[0] == i
    decreases t, 0
  {
    var x := SomeKey(t.kids[i], n - 1);
    LookupBranch(t.kids, t.value, i, x);
    p := [i] + x;
  }

  lemma TwoSlots(kids: seq<Trie>) returns (i: int, j: int)
    requires |Occupied(kids)| >= 2
    ensures i in Occupied(kids) && j in Occupied(kids) && i != j
  {
    i :| i in Occupied(kids);
    assert |Occupied(kids) - {i}| >= 1;
    j :| j in Occupied(kids) - {i};
  }

  /** The keys below a canonical branch have no first nibble in common. */
  lemma TwoKeys(t: Trie, n: int) returns (a: Nibbles, b: Nibbles)
    requires WellFormed(t, n) && Canonical(t) && t.Branch?
    ensures Holds(t, a) && Holds(t, b) && Diverge(a, b)
  {
    CanonicalIsProper(t);
    if t.value == [] {
      var i, j := TwoSlots(t.kids);
      a := SlotKey(t, i, n);
      b := SlotKey(t, j, n);
    } else {
      var i :| i in Occupied(t.kids);
      a := [];
      b := SlotKey(t, i, n);
    }
  }

  predicate Diverge(a: Nibbles, b: Nibbles)
  {
    b != [] && (a == [] || a[0] != b[0])
  }

  /** A common prefix of `q + a` and `q + b` is a prefix of `q` when `a` and `b` diverge. */
  lemma CommonPrefixOfTwo(q: Nibbles, a: Nibbles, b: Nibbles, r: Nibbles)
    ensures Diverge(a, b) && r <= q + a && r <= q + b ==> r <= q
    ensures Diverge(a, b) ==> q + a != q + b
  {
    var x, y := q + a, q + b;
    assert a != [] ==> x[|q|] == a[0];
    assert b != [] ==> y[|q|] == b[0];
    if r <= x && r <= y {
      assert forall i :: 0 <= i < |r| ==> x[i] == r[i] && y[i] == r[i];
      assert forall i :: 0 <= i < |q| && i < |r| ==> r[i] == q[i];
    }
  }

  /** Whatever holds the two diverging keys of a branch below `q` has no longer extension on top. */
  lemma ExtensionIsNoLonger(q: Nibbles, c: Trie, r: Nibbles, d: Trie, n: int)
    requires WellFormed(Extension(q, c), n) && Canonical(c)
    requires SameMap(Extension(q, c), Extension(r, d))
    ensures r <= q
  {
    var a, b := TwoKeys(c, n - |q|);
    LookupExtension(q, c, a);
    LookupExtension(q, c, b);
    assert Holds(Extension(r, d), q + a) && Holds(Extension(r, d), q + b);
    CommonPrefixOfTwo(q, a, b, r);
  }

  lemma ManyKeys(t: Trie, n: int) returns (a: Nibbles, b: Nibbles)
    requires WellFormed(t, n) && Canonical(t) && (t.Branch? || t.Extension?)
    ensures Holds(t, a) && Holds(t, b) && a != b
  {
    if t.Branch? {
      a, b := TwoKeys(t, n);
    } else {
      a, b := TwoKeys(t.child, n - |t.path|);
      LookupExtension(t.path, t.child, a);
      LookupExtension(t.path, t.child, b);
      CommonPrefixOfTwo(t.path, a, b, []);
      a, b := t.path + a, t.path + b;
    }
  }

  lemma SingleKey(q: Nibbles, v: Bytes, t: Trie, n: int)
    requires WellFormed(t, n) && Canonical(t) && SameMap(Leaf(q, v), t)
    ensures t.Leaf? || t.Empty?
  {
    if t.Branch? || t.Extension? {
      var a, b := ManyKeys(t, n);
    }
  }

  lemma ExtensionIsNoBranch(q: Nibbles, c: Trie, t: Trie, n: int)
    requires WellFormed(t, n) && Canonical(t) && t.Branch? && q != []
    ensures !SameMap(Extension(q, c), t)
  {
    var a, b := TwoKeys(t, n);
    assert SameMap(Extension(q, c), t) ==> Holds(Extension(q, c), a) && Holds(Extension(q, c), b);
  }

  lemma SameKids(kids: seq<Trie>, v: Bytes, kids': seq<Trie>, v': Bytes, i: nibble)
    requires |kids| == |kids'| == BRANCHES_NUM && SameMap(Branch(kids, v), Branch(kids', v'))
    ensures SameMap(kids[i], kids'[i])
  {
    forall x ensures Lookup(kids[i], x) == Lookup(kids'[i], x) {
      LookupBranch(kids, v, i, x);
      LookupBranch(kids', v', i, x);
    }
  }

  lemma SameChild(q: Nibbles, c: Trie, d: Trie)
    requires SameMap(Extension(q, c), Extension(q, d))
    ensures SameMap(c, d)
  {
    forall x ensures Lookup(c, x) == Lookup(d, x) {
      LookupExtension(q, c, x);
      LookupExtension(q, d, x);
    }
  }

  /** Two canonical tries that stand for the same map are the same trie. */
  lemma {:induction false} CanonicalIsUnique(t: Trie, u: Trie, n: int)
    requires WellFormed(t, n) && WellFormed(u, n) && Canonical(t) && Canonical(u)
    requires SameMap(t, u)
    ensures t == u
    decreases t
  {
    CanonicalIsProper(t);
    CanonicalIsProper(u);
    if t == Empty {
      if u != Empty {
        var p := SomeKey(u, n);
      }
    } else if u == Empty {
      var p := SomeKey(t, n);
    } else if t.Leaf? || u.Leaf? {
      SameLeaf(t, u, n);
    } else if t.Branch? && u.Branch? {
      assert Lookup(t, []) == Lookup(u, []);
      forall i | 0 <= i < BRANCHES_NUM ensures t.kids[i] == u.kids[i] {
        SameKids(t.kids, t.value, u.kids, u.value, i);
        CanonicalIsUnique(t.kids[i], u.kids[i], n - 1);
      }
      assert t.kids == u.kids;
    } else if t.Extension? && u.Extension? {
      ExtensionIsNoLonger(t.path, t.child, u.path, u.child, n);
      ExtensionIsNoLonger(u.path, u.child, t.path, t.child, n);
      assert t.path == u.path;
      SameChild(t.path, t.child, u.child);
      CanonicalIsUnique(t.child, u.child, n - |t.path|);
    } else if t.Extension? {
      ExtensionIsNoBranch(t.path, t.child, u, n);
    } else {
      assert SameMap(u, t);
      ExtensionIsNoBranch(u.path, u.child, t, n);
    }
  }

  lemma SameLeaf(t: Trie, u: Trie, n: int)
    requires WellFormed(t, n) && WellFormed(u, n) && Canonical(t) && Canonical(u)
    requires t != Empty && u != Empty && (t.Leaf? || u.Leaf?) && SameMap(t, u)
    ensures t == u
  {
    if t.Leaf? {
      SingleKey(t.path, t.value, u, n);
      assert Holds(u, t.path);
    } else {
      assert SameMap(u, t);
      SingleKey(u.path, u.value, t, n);
    }
  }

  // ---- the answer for an absent path ------------------------------------------------

  /** Two keys part at `p`: a canonical trie has a branch there. */
  ghost predicate PartAt(t: Trie, p: Nibbles)
  {
    exists a, b :: Parting(t, p, a, b)
  }

  predicate Parting(t: Trie, p: Nibbles, a: Nibbles, b: Nibbles)
  {
    Holds(t, p + a) && Holds(t, p + b) && a != [] && Diverge(a, b)
  }

  /** `get` on an absent path answers with empty bytes exactly where two keys part, and otherwise throws. */
  lemma EmptyAnswer(t: Trie, p: Nibbles, n: int)
    requires WellFormed(t, n) && Canonical(t)
    ensures Find(t, p) == Some([]) <==> !Holds(t, p) && PartAt(t, p)
  {
    if Find(t, p) == Some([]) {
      var a, b := EmptyAnswerParts(t, p, n);
    } else if !Holds(t, p) && PartAt(t, p) {
      var a, b :| Parting(t, p, a, b);
      PartsEmptyAnswer(t, p, a, b, n);
    }
  }

  lemma {:induction false} EmptyAnswerParts(t: Trie, p: Nibbles, n: int) returns (a: Nibbles, b: Nibbles)
    requires WellFormed(t, n) && Canonical(t) && Find(t, p) == Some([])
    ensures Parting(t, p, a, b)
    decreases t
  {
    match t {
      case Extension(q, c) =>
        a, b := EmptyAnswerParts(c, p[|q|..], n - |q|);
        assert p == q + p[|q|..];
        LookupExtension(q, c, p[|q|..] + a);
        LookupExtension(q, c, p[|q|..] + b);
        assert q + (p[|q|..] + a) == p + a && q + (p[|q|..] + b) == p + b;
      case Branch(kids, v) =>
        if p == [] {
          var i, j := TwoSlots(kids);
          CanonicalIsProper(t);
          a := SlotKey(t, i, n);
          b := SlotKey(t, j, n);
          assert [] + a == a && [] + b == b;
        } else {
          a, b := EmptyAnswerParts(kids[p[0]], p[1..], n - 1);
          LookupBranch(kids, v, p[0], p[1..] + a);
          LookupBranch(kids, v, p[0], p[1..] + b);
          assert [p[0]] + (p[1..] + a) == p + a && [p[0]] + (p[1..] + b) == p + b;
        }
    }
  }

  lemma {:induction false} PartsEmptyAnswer(t: Trie, p: Nibbles, a: Nibbles, b: Nibbles, n: int)
    requires WellFormed(t, n) && Parting(t, p, a, b) && !Holds(t, p)
    ensures Find(t, p) == Some([])
    decreases t
  {
    match t {
      case Leaf(q, _) => CommonPrefixOfTwo(p, a, b, q);
      case Extension(q, c) =>
        CommonPrefixOfTwo(p, a, b, q);
        assert p == q + p[|q|..];
        assert (p + a)[|q|..] == p[|q|..] + a && (p + b)[|q|..] == p[|q|..] + b;
        PartsEmptyAnswer(c, p[|q|..], a, b, n - |q|);
      case Branch(kids, v) =>
        if p != [] {
          assert (p + a)[1..] == p[1..] + a && (p + b)[1..] == p[1..] + b;
          PartsEmptyAnswer(kids[p[0]], p[1..], a, b, n - 1);
        }
    }
  }

  /** The walk to `p` ends at a branch. */
  predicate BranchAt(t: Trie, p: Nibbles)
  {
    match t
    case Empty => false
    case Leaf(_, _) => false
    case Extension(q, c) => q <= p && BranchAt(c, p[|q|..])
    case Branch(kids, _) => p == [] || (p[0] < |kids| && BranchAt(kids[p[0]], p[1..]))
  }

  /** On tries whose path compression is not complete as well: empty bytes are the answer at exactly the branches
      without a value, and every other absent path has none. */
  lemma {:induction false} EmptyAtBranches(t: Trie, p: Nibbles, n: int)
    requires WellFormed(t, n) && Proper(t)
    ensures !Holds(t, p) ==> Find(t, p) == if BranchAt(t, p) then Some([]) else None
    decreases t
  {
    match t {
      case Empty =>
      case Leaf(_, _) =>
      case Extension(q, c) =>
        if q <= p { EmptyAtBranches(c, p[|q|..], n - |q|); }
      case Branch(kids, v) =>
        if p != [] { EmptyAtBranches(kids[p[0]], p[1..], n - 1); }
    }
  }
}
