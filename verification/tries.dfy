/** The tree a reference stands for, with what `GetNode` and `SetNode` do to it (mpt.cpp:14-183). */
module Tries {
  import opened ByteStrings
  import opened Paths
  import opened Nodes

  /** `Empty` is the empty reference: the root of an empty trie, or a free branch slot. */
  datatype Trie =
    | Empty
    | Leaf(path: Nibbles, value: Bytes)
    | Extension(path: Nibbles, child: Trie)
    | Branch(kids: seq<Trie>, value: Bytes)

  const MAX_PATH := 128  // nibbles in the longest path made from a key: two per byte of a hash

  const NO_KIDS: seq<Trie> := Repeat(Empty, BRANCHES_NUM)

  /** `GetHandler`: a branch without a value answers with empty bytes. */
  function Find(t: Trie, p: Nibbles): (r: Option<Bytes>)
  {
    match t
    case Empty => None
    case Leaf(q, v) => if q == p then Some(v) else None
    case Extension(q, c) => if q <= p then Find(c, p[|q|..]) else None
    case Branch(kids, v) =>
      if p == [] then Some(v)
      else if p[0] < |kids| then Find(kids[p[0]], p[1..])
      else None
  }

  /** The map a trie stands for: an empty value means no value. */
  function Lookup(t: Trie, p: Nibbles): (r: Option<Bytes>)
  {
    match Find(t, p)
    case Some(v) => if v == [] then None else Some(v)
    case None => None
  }

  // ---- SetNode ------------------------------------------------------------------

  function Wrap(prefix: Nibbles, b: Trie): (t: Trie)
  {
    if prefix == [] then b else Extension(prefix, b)
  }

  /** `CreateBranchLeaf` */
  function PlantLeaf(kids: seq<Trie>, p: Nibbles, v: Bytes): (r: seq<Trie>)
    requires |kids| == BRANCHES_NUM
    ensures |r| == BRANCHES_NUM
  {
    if p == [] then kids else kids[p[0] := Leaf(p[1..], v)]
  }

  /** `CreateBranchExtension` */
  function PlantExtension(kids: seq<Trie>, p: Nibbles, c: Trie): (r: seq<Trie>)
    requires |kids| == BRANCHES_NUM && p != []
    ensures |r| == BRANCHES_NUM
  {
    kids[p[0] := if |p| == 1 then c else Extension(p[1..], c)]
  }

  /** `CreateBranchNode` */
  function Fork(p: Nibbles, v: Bytes, q: Nibbles, w: Bytes): (t: Trie)
  {
    Branch(PlantLeaf(PlantLeaf(NO_KIDS, p, v), q, w), if p == [] then v else if q == [] then w else [])
  }

  function SplitExtension(p: Nibbles, v: Bytes, q: Nibbles, c: Trie): (t: Trie)
    requires q != []
  {
    Branch(PlantExtension(PlantLeaf(NO_KIDS, p, v), q, c), if p == [] then v else [])
  }

  function Insert(t: Trie, p: Nibbles, v: Bytes): (u: Trie)
  {
    match t
    case Empty => Leaf(p, v)
    case Leaf(q, w) =>
      if q == p then Leaf(p, v)
      else
        var k := CommonLen(p, q);
        Wrap(p[..k], Fork(p[k..], v, q[k..], w))
    case Extension(q, c) =>
      if q <= p then Extension(q, Insert(c, p[|q|..], v))
      else
        var k := CommonLen(p, q);
        NotAPrefix(p, q);
        Wrap(p[..k], SplitExtension(p[k..], v, q[k..], c))
    case Branch(kids, w) =>
      if p == [] then Branch(kids, v)
      else if p[0] < |kids| then Branch(kids[p[0] := Insert(kids[p[0]], p[1..], v)], w)
      else t
  }

  lemma NotAPrefix(p: Nibbles, q: Nibbles)
    requires !(q <= p)
    ensures CommonLen(p, q) < |q|
  {
    assert q[..|q|] == q;
  }

  // ---- shape ----------------------------------------------------------------------

  /** What every operation keeps: sixteen slots, extensions that skip at least one nibble on the way to
      a branch, no path longer than `n` nibbles, no value over the SSZ capacity. */
  predicate WellFormed(t: Trie, n: int)
    decreases t
  {
    match t
    case Empty => true
    case Leaf(q, v) => |q| <= n && |v| <= MAX_VALUE
    case Extension(q, c) => 0 < |q| <= n && c.Branch? && WellFormed(c, n - |q|)
    case Branch(kids, v) =>
      && 0 <= n && |v| <= MAX_VALUE && |kids| == BRANCHES_NUM
      && forall i :: 0 <= i < |kids| ==> WellFormed(kids[i], n - 1)
  }

  function Occupied(kids: seq<Trie>): (s: set<int>)
  {
    set i | 0 <= i < |kids| && kids[i] != Empty
  }

  function Weight(kids: seq<Trie>, v: Bytes): (n: nat)
  {
    |Occupied(kids)| + if v == [] then 0 else 1
  }

  /** No leaf without a value and no branch that holds nothing. */
  predicate Proper(t: Trie)
  {
    match t
    case Empty => true
    case Leaf(_, v) => v != []
    case Extension(_, c) => Proper(c)
    case Branch(kids, v) => Weight(kids, v) >= 1 && forall i :: 0 <= i < |kids| ==> Proper(kids[i])
  }

  /** Path compression is complete: every branch holds at least two of {slots, value}. */
  predicate Canonical(t: Trie)
  {
    match t
    case Empty => true
    case Leaf(_, v) => v != []
    case Extension(_, c) => Canonical(c)
    case Branch(kids, v) => Weight(kids, v) >= 2 && forall i :: 0 <= i < |kids| ==> Canonical(kids[i])
  }

  lemma {:induction false} CanonicalIsProper(t: Trie)
    requires Canonical(t)
    ensures Proper(t)
  {
    match t {
      case Empty =>
      case Leaf(_, _) =>
      case Extension(_, c) => CanonicalIsProper(c);
      case Branch(kids, _) =>
        forall i | 0 <= i < |kids| ensures Proper(kids[i]) {
          CanonicalIsProper(kids[i]);
        }
    }
  }

  lemma SubsetSize(a: set<int>, b: set<int>)
    requires a <= b
    ensures |a| <= |b|
  {
    assert b == a + (b - a);
  }

  lemma TwoOccupied(kids: seq<Trie>, i: int, j: int)
    requires 0 <= i < |kids| && 0 <= j < |kids| && i != j && kids[i] != Empty && kids[j] != Empty
    ensures |Occupied(kids)| >= 2
  {
    SubsetSize({i, j}, Occupied(kids));
  }

  lemma OneOccupied(kids: seq<Trie>, i: int)
    requires 0 <= i < |kids| && kids[i] != Empty
    ensures |Occupied(kids)| >= 1
  {
    SubsetSize({i}, Occupied(kids));
  }

  lemma {:induction false} InsertKeepsWellFormed(t: Trie, p: Nibbles, v: Bytes, n: int)
    requires WellFormed(t, n) && |p| <= n && |v| <= MAX_VALUE
    ensures WellFormed(Insert(t, p, v), n)
    ensures t.Branch? ==> Insert(t, p, v).Branch?
    decreases t
  {
    match t {
      case Empty =>
      case Leaf(q, w) => LeafInsertIsWellFormed(q, w, p, v, n);
      case Extension(q, c) =>
        if q <= p {
          InsertKeepsWellFormed(c, p[|q|..], v, n - |q|);
        } else {
          SplitInsertIsWellFormed(q, c, p, v, n);
        }
      case Branch(kids, w) =>
        if p != [] {
          InsertKeepsWellFormed(kids[p[0]], p[1..], v, n - 1);
        }
    }
  }

  lemma LeafInsertIsWellFormed(q: Nibbles, w: Bytes, p: Nibbles, v: Bytes, n: int)
    requires WellFormed(Leaf(q, w), n) && |p| <= n && |v| <= MAX_VALUE
    ensures WellFormed(Insert(Leaf(q, w), p, v), n)
  {
    if q != p {
      var k := CommonLen(p, q);
      ForkIsWellFormed(p[..k], p[k..], v, q[k..], w, n);
    }
  }

  lemma SplitInsertIsWellFormed(q: Nibbles, c: Trie, p: Nibbles, v: Bytes, n: int)
    requires !(q <= p) && WellFormed(Extension(q, c), n) && |p| <= n && |v| <= MAX_VALUE
    ensures WellFormed(Insert(Extension(q, c), p, v), n)
  {
    var k := CommonLen(p, q);
    NotAPrefix(p, q);
    SplitIsWellFormed(p[..k], p[k..], v, q[k..], c, n, n - |q|);
  }

  lemma ForkIsWellFormed(pre: Nibbles, p: Nibbles, v: Bytes, q: Nibbles, w: Bytes, n: int)
    requires |pre| + |p| <= n && |pre| + |q| <= n && |v| <= MAX_VALUE && |w| <= MAX_VALUE
    ensures WellFormed(Wrap(pre, Fork(p, v, q, w)), n)
  {
    assert WellFormed(Fork(p, v, q, w), n - |pre|);
  }

  lemma SplitIsWellFormed(pre: Nibbles, p: Nibbles, v: Bytes, q: Nibbles, c: Trie, n: int, m: int)
    requires |pre| + |p| <= n && |v| <= MAX_VALUE
    requires c.Branch? && WellFormed(c, m) && 0 < |q| && m == n - |pre| - |q|
    ensures WellFormed(Wrap(pre, SplitExtension(p, v, q, c)), n)
  {
    WellFormedShrinks(c, m, n - |pre| - 1);
    assert WellFormed(SplitExtension(p, v, q, c), n - |pre|);
  }

  lemma {:induction false} WellFormedShrinks(t: Trie, n: int, m: int)
    requires WellFormed(t, n) && n <= m
    ensures WellFormed(t, m)
    decreases t
  {
    match t {
      case Empty =>
      case Leaf(_, _) =>
      case Extension(q, c) => WellFormedShrinks(c, n - |q|, m - |q|);
      case Branch(kids, _) =>
        forall i | 0 <= i < |kids| ensures WellFormed(kids[i], m - 1) {
          WellFormedShrinks(kids[i], n - 1, m - 1);
        }
    }
  }

  /** Set-only runs with non-empty values stay canonical. */
  lemma {:induction false} InsertKeepsCanonical(t: Trie, p: Nibbles, v: Bytes, n: int)
    requires WellFormed(t, n) && Canonical(t) && v != []
    ensures Canonical(Insert(t, p, v))
    decreases t
  {
    match t {
      case Empty =>
      case Leaf(q, w) =>
        if q != p {
          var k := CommonLen(p, q);
          assert p == p[..k] + p[k..] && q == q[..k] + q[k..];
          ForkIsCanonical(p[k..], v, q[k..], w);
        }
      case Extension(q, c) =>
        if q <= p {
          InsertKeepsCanonical(c, p[|q|..], v, n - |q|);
        } else {
          NotAPrefix(p, q);
          var k := CommonLen(p, q);
          SplitIsCanonical(p[k..], v, q[k..], c);
        }
      case Branch(kids, w) =>
        if p != [] {
          InsertKeepsCanonical(kids[p[0]], p[1..], v, n - 1);
          InsertIsNotEmpty(kids[p[0]], p[1..], v);
          SubsetSize(Occupied(kids), Occupied(kids[p[0] := Insert(kids[p[0]], p[1..], v)]));
        }
    }
  }

  lemma InsertIsNotEmpty(t: Trie, p: Nibbles, v: Bytes)
    ensures Insert(t, p, v) != Empty
  {
  }

  lemma ForkIsCanonical(p: Nibbles, v: Bytes, q: Nibbles, w: Bytes)
    requires p != q && CommonLen(p, q) == 0 && v != [] && w != []
    ensures Canonical(Fork(p, v, q, w))
  {
    var kids := Fork(p, v, q, w).kids;
    if p == [] {
      OneOccupied(kids, q[0]);
    } else if q == [] {
      OneOccupied(kids, p[0]);
    } else {
      TwoOccupied(kids, p[0], q[0]);
    }
  }

  lemma SplitIsCanonical(p: Nibbles, v: Bytes, q: Nibbles, c: Trie)
    requires q != [] && CommonLen(p, q) == 0 && v != [] && Canonical(c) && c.Branch?
    ensures Canonical(SplitExtension(p, v, q, c))
  {
    var kids := SplitExtension(p, v, q, c).kids;
    if p == [] {
      OneOccupied(kids, q[0]);
    } else {
      TwoOccupied(kids, p[0], q[0]);
    }
  }

  // ---- the map --------------------------------------------------------------------

  lemma FindWrap(q: Nibbles, b: Trie, x: Nibbles)
    ensures Find(Wrap(q, b), x) == if q <= x then Find(b, x[|q|..]) else None
  {
    assert x[0..] == x;
  }

  lemma ForkFind(p: Nibbles, v: Bytes, q: Nibbles, w: Bytes, x: Nibbles)
    requires p != q && CommonLen(p, q) == 0
    ensures Find(Fork(p, v, q, w), x) ==
            if x == p then Some(v) else if x == q then Some(w) else if x == [] then Some([]) else None
  {
    if x != [] {
      assert p != [] && p[0] == x[0] && p[1..] == x[1..] ==> p == [x[0]] + x[1..] == x;
      assert q != [] && q[0] == x[0] && q[1..] == x[1..] ==> q == [x[0]] + x[1..] == x;
    }
  }

  lemma SplitFind(p: Nibbles, v: Bytes, q: Nibbles, c: Trie, x: Nibbles)
    requires q != [] && CommonLen(p, q) == 0
    ensures Find(SplitExtension(p, v, q, c), x) ==
            if x == p then Some(v) else if x == [] then Some([]) else Find(Extension(q, c), x)
  {
    if x != [] {
      assert p != [] && p[0] == x[0] && p[1..] == x[1..] ==> p == [x[0]] + x[1..] == x;
      assert q <= x <==> q[0] == x[0] && q[1..] <= x[1..];
      if q <= x {
        assert x[1..][|q| - 1..] == x[|q|..];
      }
    }
  }

  lemma LeafInsertLookup(q: Nibbles, w: Bytes, p: Nibbles, v: Bytes, x: Nibbles)
    requires p != q
    ensures Inserted(Insert(Leaf(q, w), p, v), Leaf(q, w), p, v, x)
  {
    var k := CommonLen(p, q);
    assert p == p[..k] + p[k..] && q == q[..k] + q[k..];
    FindWrap(p[..k], Fork(p[k..], v, q[k..], w), x);
    if p[..k] <= x {
      assert x == p[..k] + x[k..];
      ForkFind(p[k..], v, q[k..], w, x[k..]);
    }
  }

  lemma SplitInsertLookup(q: Nibbles, c: Trie, p: Nibbles, v: Bytes, x: Nibbles)
    requires !(q <= p)
    ensures Inserted(Insert(Extension(q, c), p, v), Extension(q, c), p, v, x)
  {
    var k := CommonLen(p, q);
    NotAPrefix(p, q);
    assert p == p[..k] + p[k..];
    var b := SplitExtension(p[k..], v, q[k..], c);
    assert Insert(Extension(q, c), p, v) == Wrap(p[..k], b);
    FindWrap(p[..k], b, x);
    ExtensionSuffix(q, c, k, x);
    if p[..k] <= x {
      assert x == p[..k] + x[k..];
      SplitFind(p[k..], v, q[k..], c, x[k..]);
    }
  }

  /** At path `x`, `u` is what `t` becomes when `p` is set to `v`. */
  predicate Inserted(u: Trie, t: Trie, p: Nibbles, v: Bytes, x: Nibbles)
  {
    if x == p then Find(u, x) == Some(v) else Lookup(u, x) == Lookup(t, x)
  }

  /** After `SetNode` the path holds the value and every other path what it held before. */
  lemma {:induction false} InsertLookup(t: Trie, p: Nibbles, v: Bytes, n: int, x: Nibbles)
    requires WellFormed(t, n)
    ensures Inserted(Insert(t, p, v), t, p, v, x)
    decreases t
  {
    match t {
      case Empty =>
      case Leaf(q, w) =>
        if q != p {
          LeafInsertLookup(q, w, p, v, x);
        }
      case Extension(q, c) =>
        if q <= p {
          assert p == q + p[|q|..];
          if q <= x {
            assert x == q + x[|q|..];
            InsertLookup(c, p[|q|..], v, n - |q|, x[|q|..]);
          }
        } else {
          SplitInsertLookup(q, c, p, v, x);
        }
      case Branch(kids, w) =>
        if p != [] && x != [] && p[0] == x[0] {
          assert p == [p[0]] + p[1..] && x == [x[0]] + x[1..];
          InsertLookup(kids[p[0]], p[1..], v, n - 1, x[1..]);
        }
    }
  }

  lemma ExtensionSuffix(q: Nibbles, c: Trie, k: nat, x: Nibbles)
    requires k < |q|
    ensures Find(Extension(q, c), x) == if q[..k] <= x then Find(Extension(q[k..], c), x[k..]) else None
  {
    assert q == q[..k] + q[k..];
    if q[..k] <= x {
      assert x == q[..k] + x[k..];
      assert q <= x <==> q[k..] <= x[k..];
      if q <= x {
        assert x[k..][|q| - k..] == x[|q|..];
      }
    }
  }
}
