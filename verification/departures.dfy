/** The departures of `remove` as written, and what a collision does, on byte keys. */
module Departures {
  import opened ByteStrings
  import opened Hashing
  import opened Paths
  import opened Nodes
  import opened Tries
  import opened CanonicalForm
  import opened Deletion
  import opened Removal
  import opened References
  import opened Merkle
  import opened Runs

  lemma ShortKeyPaths(b: byte)
    ensures KeyPath([]) == [] && KeyPath([b]) == [High(b), Low(b)]
  {
    ExpandCons(b, []);
    assert [b] + [] == [b];
  }

  lemma RunSnoc(ops: seq<Op>, op: Op)
    ensures RunTrie(ops + [op]) == After(RunTrie(ops), op)
    ensures Admissible(ops + [op]) <==> Admissible(ops) && Fits(RunTrie(ops), op)
  {
    assert (ops + [op])[..|ops|] == ops;
  }

  lemma RunOne(a: Op)
    ensures RunTrie([a]) == After(Empty, a)
    ensures Admissible([a]) <==> Fits(Empty, a)
  {
    var none: seq<Op> := [];
    assert none + [a] == [a];
    RunSnoc(none, a);
  }

  lemma RunTwo(a: Op, b: Op)
    ensures RunTrie([a, b]) == After(After(Empty, a), b)
    ensures Admissible([a, b]) <==> Fits(Empty, a) && Fits(After(Empty, a), b)
  {
    assert [a] + [b] == [a, b];
    RunOne(a);
    RunSnoc([a], b);
  }

  lemma RunThree(a: Op, b: Op, c: Op)
    ensures RunTrie([a, b, c]) == After(RunTrie([a, b]), c)
    ensures Admissible([a, b, c]) <==> Admissible([a, b]) && Fits(RunTrie([a, b]), c)
  {
    assert [a, b] + [c] == [a, b, c];
    RunSnoc([a, b], c);
  }

  // ---- (a): keys 00 and 01 ------------------------------------------------------------------

  function OneSlot(v: Bytes): (t: Trie) { Branch(NO_KIDS[1 := Leaf([], v)], []) }

  function TwoSlots(v: Bytes): (t: Trie) { Branch(NO_KIDS[1 := Leaf([], v)][0 := Leaf([], v)], []) }

  lemma SetTwo(v: Bytes)
    ensures After(After(Empty, Put([0, 0], v)), Put([0, 1], v)) == Extension([0], TwoSlots(v))
  {
    var p: Nibbles, q: Nibbles := [0, 1], [0, 0];
    CommonLenIs(p, q, 1);
    assert p[..1] == [0] && p[1..] == [1] && q[1..] == [0] && p[1..][1..] == [] && q[1..][1..] == [];
  }

  lemma DropOfTwo(v: Bytes, junk: byte)
    requires v != []
    ensures
      var t := Extension([0], TwoSlots(v));
      && Holds(t, [0, 0]) && Safe(t, [0, 0]) && !Only(t, [0, 0])
      && RemoveTrie(t, [0, 0], AsWritten(junk)) == Ok(Extension([0], OneSlot(v)))
      && RemoveTrie(t, [0, 0], Repaired) == Ok(Leaf([0, 1], v))
  {
    var b := TwoSlots(v);
    var p: Nibbles := [0, 0];
    var zero: Nibbles, one: Nibbles := [0], [1];
    assert p[1..] == zero && zero[1..] == [] && one + [] == one && zero + one == [0, 1];
    assert Occupied(b.kids) == {0, 1} && |{0, 1}| == 2;
    ClearedOccupied(b.kids, 0);
    assert b.kids[0 := Empty] == OneSlot(v).kids && {0, 1} - {0} == {1};
    assert FirstSlot(OneSlot(v).kids, 0) == 1;
    assert Find(b.kids[0], []) == Some(v);
    assert zero + zero == p && zero + one == [0, 1];
    assert Find(b, zero) == Some(v);
    assert DeleteTrie(b.kids[0], [], AsWritten(junk)) == Deleted == DeleteTrie(b.kids[0], [], Repaired);
    assert DeleteTrie(b, zero, AsWritten(junk)) == Updated(OneSlot(v));
    assert DeleteTrie(b, zero, Repaired) == UselessBranch([1], Leaf([1], v));
  }

  lemma DropOfOne(v: Bytes, junk: byte)
    requires 0 < |v| <= MAX_VALUE
    ensures
      var t := Extension([0], OneSlot(v));
      && Holds(t, [0, 1]) && !Canonical(t)
      && RemoveTrie(t, [0, 1], AsWritten(junk)) == Ok(Leaf([0, 1], v))
  {
    var p: Nibbles := [0, 1];
    var zero: Nibbles, one: Nibbles := [0], [1];
    assert p[1..] == one && zero + one == p;
    AloneIsNotEnough(v, junk, one);
    assert Occupied(OneSlot(v).kids) == {1};
  }

  lemma ComesBackAtPaths(v: Bytes, junk: byte, a: Op, b: Op, c: Op)
    requires 0 < |v| <= MAX_VALUE && a == Put([0, 0], v) && b == Put([0, 1], v) && c == Drop([0, 0], AsWritten(junk))
    ensures Admissible([a, b, c]) && RunTrie([a, b, c]) == Extension([0], OneSlot(v))
  {
    RunTwo(a, b);
    RunThree(a, b, c);
    SetTwo(v);
    DropOfTwo(v, junk);
  }

  /** Set 00, set 01, remove 00: the branch keeps one slot uncompressed. Remove 01: the call returns and
      the key is still there. */
  lemma StaysUncompressedThenComesBack(v: Bytes, junk: byte)
    requires 0 < |v| <= MAX_VALUE
    ensures
      var ops := OpsOf([SetCall([0], v), SetCall([1], v), RemoveCall([0], AsWritten(junk))]);
      var t, p := RunTrie(ops), KeyPath([1]);
      && Admissible(ops) && !Canonical(t) && Holds(t, p)
      && var r := RemoveTrie(t, p, AsWritten(junk)); r.Ok? && Holds(r.value, p)
  {
    ShortKeyPaths(0);
    ShortKeyPaths(1);
    var a, b, c := Put([0, 0], v), Put([0, 1], v), Drop([0, 0], AsWritten(junk));
    assert OpsOf([SetCall([0], v), SetCall([1], v), RemoveCall([0], AsWritten(junk))]) == [a, b, c];
    ComesBackAtPaths(v, junk, a, b, c);
    DropOfOne(v, junk);
  }

  // ---- (b): keys empty, 00 and 10 -------------------------------------------------------------

  lemma SetAboveTwo(v: Bytes, w: Bytes)
    ensures After(After(Empty, Put([], v)), Put([1, 0], w)) == Branch(NO_KIDS[1 := Leaf([0], w)], v)
    ensures After(Branch(NO_KIDS[1 := Leaf([0], w)], v), Put([0, 0], w))
         == Branch(NO_KIDS[1 := Leaf([0], w)][0 := Leaf([0], w)], v)
  {
    var p: Nibbles, q: Nibbles := [1, 0], [0, 0];
    CommonLenIs(p, [], 0);
    assert p[0..] == p && p[1..] == [0] && q[1..] == [0];
    var kids := NO_KIDS[1 := Leaf([0], w)];
    assert kids[q[0]] == Empty && Insert(Empty, q[1..], w) == Leaf([0], w);
    assert Insert(Branch(kids, v), q, w) == Branch(kids[0 := Leaf([0], w)], v);
  }

  lemma DropsAnotherPath(v: Bytes, a: Op, b: Op, c: Op)
    requires 0 < |v| <= MAX_VALUE && a == Put([], v) && b == Put([1, 0], v) && c == Put([0, 0], v)
    ensures
      var t := RunTrie([a, b, c]);
      && Admissible([a, b, c]) && Holds(t, [1, 0])
      && var r := RemoveTrie(t, [], AsWritten(1)); r.Ok? && !Holds(r.value, [1, 0])
  {
    RunTwo(a, b);
    RunThree(a, b, c);
    SetAboveTwo(v, v);
    var kids := NO_KIDS[1 := Leaf([0], v)][0 := Leaf([0], v)];
    var p: Nibbles := [1, 0];
    assert p[1..] == [0] && Find(kids[1], [0]) == Some(v) && Find(kids[1 := Empty][1], [0]) == None;
    assert Occupied(kids) == {0, 1} && |{0, 1}| == 2;
  }

  /** Set the empty key, 10 and 00, and remove the empty key: whatever slot the uninitialized index names
      is cleared, so another key may be dropped with it. */
  lemma DropsAnotherKey(v: Bytes)
    requires 0 < |v| <= MAX_VALUE
    ensures
      var ops := OpsOf([SetCall([], v), SetCall([0x10], v), SetCall([0], v)]);
      var t, p := RunTrie(ops), KeyPath([0x10]);
      && Admissible(ops) && Holds(t, p)
      && var r := RemoveTrie(t, KeyPath([]), AsWritten(1)); r.Ok? && !Holds(r.value, p)
  {
    ShortKeyPaths(0);
    ShortKeyPaths(0x10);
    var a, b, c := Put([], v), Put([1, 0], v), Put([0, 0], v);
    assert OpsOf([SetCall([], v), SetCall([0x10], v), SetCall([0], v)]) == [a, b, c];
    DropsAnotherPath(v, a, b, c);
  }

  // ---- (c), (d): the root -----------------------------------------------------------------------

  lemma LastPathStays(p: Nibbles, v: Bytes, junk: byte)
    requires v != []
    ensures Holds(Leaf(p, v), p) && RemoveTrie(Leaf(p, v), p, AsWritten(junk)) == Err(BadAccess)
  {
  }

  /** The only key cannot be removed, whichever it is: `remove` reads an object that is not there. */
  lemma LastKeyStays(key: Bytes, v: Bytes, junk: byte)
    requires 0 < |v| <= MAX_VALUE
    ensures
      var ops := OpsOf([SetCall(key, v)]);
      && Admissible(ops) && Holds(RunTrie(ops), KeyPath(key))
      && RemoveTrie(RunTrie(ops), KeyPath(key), AsWritten(junk)) == Err(BadAccess)
  {
    var p := KeyPath(key);
    assert OpsOf([SetCall(key, v)]) == [Put(p, v)];
    RunOne(Put(p, v));
    LastPathStays(p, v, junk);
  }

  lemma RootRefusesAtPaths(v: Bytes, junk: byte, a: Op, b: Op)
    requires 0 < |v| <= MAX_VALUE && a == Put([], v) && b == Put([1, 0], v)
    ensures
      var t := RunTrie([a, b]);
      Admissible([a, b]) && Holds(t, []) && RemoveTrie(t, [], AsWritten(junk)) == Err(RemoveError)
  {
    RunTwo(a, b);
    SetAboveTwo(v, v);
    assert Occupied(NO_KIDS[1 := Leaf([0], v)]) == {1};
  }

  /** Set the empty key and 10, and remove the empty key: "remove error". */
  lemma RootRefuses(v: Bytes, junk: byte)
    requires 0 < |v| <= MAX_VALUE
    ensures
      var ops := OpsOf([SetCall([], v), SetCall([0x10], v)]);
      && Admissible(ops) && Holds(RunTrie(ops), KeyPath([]))
      && RemoveTrie(RunTrie(ops), KeyPath([]), AsWritten(junk)) == Err(RemoveError)
  {
    ShortKeyPaths(0x10);
    var a, b := Put([], v), Put([1, 0], v);
    assert OpsOf([SetCall([], v), SetCall([0x10], v)]) == [a, b];
    RootRefusesAtPaths(v, junk, a, b);
  }

  // ---- a collision ------------------------------------------------------------------------------

  function Fork2(v: Bytes, w: Bytes): (t: Trie) { Branch(NO_KIDS[1 := Leaf([0], w)][0 := Leaf([0], v)], []) }

  lemma SetApart(v: Bytes, w: Bytes)
    ensures After(After(Empty, Put([0, 0], v)), Put([1, 0], w)) == Fork2(v, w)
  {
    var p: Nibbles, q: Nibbles := [1, 0], [0, 0];
    CommonLenIs(p, q, 0);
    assert p[0..] == p && q[0..] == q && p[1..] == [0] && q[1..] == [0];
  }

  lemma RunApart(v: Bytes, w: Bytes)
    requires 0 < |v| <= MAX_VALUE && 0 < |w| <= MAX_VALUE
    ensures
      var ops := OpsOf([SetCall([0], v), SetCall([0x10], w)]);
      && Admissible(ops) && RunTrie(ops) == Fork2(v, w)
      && RunMap(ops) == map[KeyPath([0]) := v, KeyPath([0x10]) := w] && KeyPath([0]) != KeyPath([0x10])
  {
    ShortKeyPaths(0);
    ShortKeyPaths(0x10);
    var a, b := Put([0, 0], v), Put([1, 0], w);
    var ops := OpsOf([SetCall([0], v), SetCall([0x10], w)]);
    assert ops == [a, b];
    RunTwo(a, b);
    SetApart(v, w);
    assert ops[..1] == [a] && ops[..1][..0] == [];
    assert RunMap([a]) == map[a.path := v];
  }

  /** Two runs that set key 10 to different values end with the same root: without the hypothesis on
      collisions the root does not commit to the contents. */
  lemma SameRootOtherContents(v: Bytes)
    requires 22 <= |v| < MAX_VALUE
    ensures
      var ops := OpsOf([SetCall([0], v), SetCall([0x10], v)]);
      var others := OpsOf([SetCall([0], v), SetCall([0x10], v + [0])]);
      && Admissible(ops) && Admissible(others) && RunMap(ops) != RunMap(others)
      && RefOf(RunTrie(ops)) == RefOf(RunTrie(others))
  {
    RunApart(v, v);
    RunApart(v, v + [0]);
    CollidingLeaves([0], v);
    var t, u := Fork2(v, v), Fork2(v, v + [0]);
    assert RunMap(OpsOf([SetCall([0], v), SetCall([0x10], v)]))[KeyPath([0x10])] == v;
    assert RunMap(OpsOf([SetCall([0], v), SetCall([0x10], v + [0])]))[KeyPath([0x10])] == v + [0];
    assert |v| != |v + [0]|;
    SameRefs(v);
    assert ShapeOf(Refer, t) == ShapeOf(Refer, u);
    assert RefOf(t) == NodeRef(Refer, t) && RefOf(u) == NodeRef(Refer, u);
  }

  lemma SameRefs(v: Bytes)
    requires 22 <= |v|
    ensures Refs(Refer, Fork2(v, v).kids) == Refs(Refer, Fork2(v, v + [0]).kids)
  {
    CollidingLeaves([0], v);
    LeafRef(v);
    LeafRef(v + [0]);
    var t, u := Fork2(v, v).kids, Fork2(v, v + [0]).kids;
    forall i | 0 <= i < BRANCHES_NUM ensures Refs(Refer, t)[i] == Refs(Refer, u)[i] {
      assert i != 1 ==> t[i] == u[i];
    }
  }

  lemma LeafRef(v: Bytes)
    ensures TreeRef(Refer, Leaf([0], v)) == Refer(LeafShape([0], v))
  {
    assert TreeRef(Refer, Leaf([0], v)) == NodeRef(Refer, Leaf([0], v));
  }

  /** After keys 00 and 10 have been set to values that differ by a trailing zero byte, `get` answers alike
      for both: in any store that has the root node, whatever trie the root stands for there. */
  lemma CollidingKeysAnswerAlike(f: OwnScheme, v: Bytes, nodes: map<Reference, Bytes>, t: Trie, u: Trie)
    requires 22 <= |v| < MAX_VALUE && t == RunTrie(OpsOf([SetCall([0], v), SetCall([0x10], v + [0])]))
    requires t != Empty && TreeRef(f, u) == TreeRef(f, t) && ReadsBack(nodes, ShapeOf(f, t)) && Readable(f, nodes, u)
    ensures Find(u, KeyPath([0])) == Find(u, KeyPath([0x10]))
  {
    ShortKeyPaths(0);
    ShortKeyPaths(0x10);
    RunApart(v, v + [0]);
    SlotsCollide(f, v);
    OwnIsBounded(f);
    SlotsAnswerAlike(f, nodes, t, u);
  }

  lemma SlotsCollide(f: OwnScheme, v: Bytes)
    requires 22 <= |v|
    ensures Refs(f, Fork2(v, v + [0]).kids)[0] == Refs(f, Fork2(v, v + [0]).kids)[1]
  {
    CollidingLeaves([0], v);
    assert TreeRef(f, Leaf([0], v)) == NodeRef(f, Leaf([0], v)) == Refer(LeafShape([0], v));
    assert TreeRef(f, Leaf([0], v + [0])) == NodeRef(f, Leaf([0], v + [0])) == Refer(LeafShape([0], v + [0]));
  }

  /** Two slots of a root with one reference answer alike. */
  lemma SlotsAnswerAlike(f: OwnScheme, nodes: map<Reference, Bytes>, t: Trie, u: Trie)
    requires Bounded(f) && t.Branch? && |t.kids| == BRANCHES_NUM && Refs(f, t.kids)[0] == Refs(f, t.kids)[1]
    requires TreeRef(f, u) == TreeRef(f, t) && ReadsBack(nodes, ShapeOf(f, t)) && Readable(f, nodes, u)
    ensures Find(u, [0, 0]) == Find(u, [1, 0])
  {
    RefLength(f, u);
    RefLength(f, t);
    SameTop(f, nodes, t, u);
    assert Refs(f, u.kids) == Refs(f, t.kids);
    assert |u.kids| == |Refs(f, u.kids)| == BRANCHES_NUM;
    ReadTop(f, nodes, u);
    StoreDecides(f, nodes, u.kids[0], u.kids[1]);
    var p: Nibbles, q: Nibbles := [0, 0], [1, 0];
    assert p[1..] == q[1..];
  }
}
