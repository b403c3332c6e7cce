/** The encodings byte by byte, without reference to the decoders (path.hpp:32-58, node.hpp:19-90, node.cpp:20-94,
    mpt.cpp:479-500). */
module Encodings {
  import opened ByteStrings
  import opened Paths
  import opened Hashing
  import opened Ssz
  import opened Nodes
  import opened Tries
  import opened References
  import opened Merkle

  // ---- offsets --------------------------------------------------------------------------------

  lemma DivTwice(n: nat)
    ensures n / 256 / 256 == n / 0x1_0000 && n / 0x1_0000 / 256 == n / 0x100_0000
  {
  }

  /** Four bytes, the least significant first. */
  lemma OffsetBytes(n: nat)
    ensures Offset(n) == [n % 256, n / 256 % 256, n / 0x1_0000 % 256, n / 0x100_0000 % 256]
  {
    DivTwice(n);
    assert LittleEndian(n / 0x100_0000, 1) == [n / 0x100_0000 % 256] + LittleEndian(n / 0x100_0000 / 256, 0);
    assert LittleEndian(n / 0x1_0000, 2) == [n / 0x1_0000 % 256] + LittleEndian(n / 0x100_0000, 1);
    assert LittleEndian(n / 256, 3) == [n / 256 % 256] + LittleEndian(n / 0x1_0000, 2);
  }

  lemma EightFirst()
    ensures Offset(8) == [8, 0, 0, 0]
  {
    OffsetBytes(8);
  }

  // ---- paths ------------------------------------------------------------------------------------

  lemma {:induction false} PairAt(ns: Nibbles, i: nat)
    requires 2 * i + 1 < |ns| && |ns| % 2 == 0
    ensures Pairs(ns)[i] == Pack(ns[2 * i], ns[2 * i + 1])
  {
    if 2 * i + 2 < |ns| { PairAt(ns[..|ns| - 2], i); }
  }

  /** The flag byte of a path: 0x1n with its first nibble n when the size is odd, and zero otherwise. */
  lemma PathFlag(ns: Nibbles)
    ensures |PathBytes(ns)| == 1 + |ns| / 2
    ensures PathBytes(ns)[0] == if |ns| % 2 == 1 then Pack(1, ns[0]) else 0
  {
  }

  /** The other nibbles follow, two to a byte, the first one high. */
  lemma PathPairs(ns: Nibbles, odd: nat, i: nat)
    requires odd == |ns| % 2 && i < |ns| / 2
    ensures PathBytes(ns)[1 + i] == Pack(ns[odd + 2 * i], ns[odd + 2 * i + 1])
  {
    var rest := ns[odd..];
    PairAt(rest, i);
    assert rest[2 * i] == ns[odd + 2 * i] && rest[2 * i + 1] == ns[odd + 2 * i + 1];
    if odd == 0 { assert rest == ns; }
  }

  /** Reading a path back skips the flag byte, or half of it when its bit 0x10 is set, whatever else is in it. */
  lemma FlagIsRead(data: Bytes)
    requires data != []
    ensures
      var r := Deserialize(data);
      && r.Some? && r.value.data == data && (r.value.offset == 1 || r.value.offset == 2)
      && (r.value.offset == 1 <==> Bits(data[0]) & 0x10 == 0x10)
  {
    OddFlagIsMask(Bits(data[0]));
  }

  // ---- containers and lists -----------------------------------------------------------------------

  /** Two offsets, counted from the start of the container, and the two fields in order. */
  lemma PairLayout(a: Bytes, b: Bytes)
    ensures EncodePair(a, b) == [8, 0, 0, 0] + Offset(8 + |a|) + a + b
  {
    EightFirst();
  }

  lemma ItemsBefore(xs: seq<Bytes>, k: nat)
    requires 0 < k <= |xs|
    ensures Concat(xs[..k]) == xs[0] + Concat(xs[1..][..k - 1])
  {
    assert xs[..k][1..] == xs[1..][..k - 1];
  }

  lemma {:induction false} OffsetsLayout(xs: seq<Bytes>, start: nat, k: nat)
    requires k < |xs|
    ensures Offsets(xs, start)[4 * k..4 * k + 4] == Offset(start + |Concat(xs[..k])|)
  {
    var first, rest := Offset(start), Offsets(xs[1..], start + |xs[0]|);
    if k == 0 {
      SlicesOfSum(first, rest, 0, 4);
      assert first[0..4] == first && xs[..0] == [];
    } else {
      OffsetsLayout(xs[1..], start + |xs[0]|, k - 1);
      SliceOfTail(first, rest, 4 * (k - 1), 4 * (k - 1) + 4);
      ItemsBefore(xs, k);
    }
  }

  /** A list begins with the offset of every item. */
  lemma ListOffsets(xs: seq<Bytes>, k: nat)
    requires k < |xs|
    ensures EncodeList(xs)[4 * k..4 * k + 4] == Offset(4 * |xs| + |Concat(xs[..k])|)
  {
    OffsetsLayout(xs, 4 * |xs|, k);
    SlicesOfSum(Offsets(xs, 4 * |xs|), Concat(xs), 4 * k, 4 * k + 4);
  }

  /** The items follow. */
  lemma ListItems(xs: seq<Bytes>)
    ensures EncodeList(xs)[4 * |xs|..] == Concat(xs)
  {
    SlicesOfSum(Offsets(xs, 4 * |xs|), Concat(xs), 0, 0);
  }

  // ---- nodes ------------------------------------------------------------------------------------

  /** The first byte is 0, 1 or 2 by the kind of the node; then come the path or the branches, and after them the
      value or the next reference. */
  lemma NodeLayout(s: Shape)
    ensures
      EncodeShape(s) ==
      match s
      case LeafShape(p, v) => [0, 8, 0, 0, 0] + Offset(8 + |PathBytes(p)|) + PathBytes(p) + v
      case ExtensionShape(p, r) => [1, 8, 0, 0, 0] + Offset(8 + |PathBytes(p)|) + PathBytes(p) + r
      case BranchShape(bs, v) => [2, 8, 0, 0, 0] + Offset(8 + |EncodeList(bs)|) + EncodeList(bs) + v
  {
    match s {
      case LeafShape(p, v) => FlaggedLayout(0, PathBytes(p), v);
      case ExtensionShape(p, r) => FlaggedLayout(1, PathBytes(p), r);
      case BranchShape(bs, v) => FlaggedLayout(2, EncodeList(bs), v);
    }
  }

  lemma FlaggedLayout(flag: byte, a: Bytes, b: Bytes)
    ensures [flag] + EncodePair(a, b) == [flag, 8, 0, 0, 0] + Offset(8 + |a|) + a + b
  {
    PairLayout(a, b);
    var head: Bytes := [8, 0, 0, 0];
    assert [flag] + head == [flag, 8, 0, 0, 0];
  }

  /** The leaf at nibbles 1, 2, 3 with the value AB. */
  lemma OneLeaf()
    ensures EncodeShape(LeafShape([1, 2, 3], [0xAB])) == [0, 8, 0, 0, 0, 10, 0, 0, 0, 0x11, 0x23, 0xAB]
  {
    var p: Nibbles, data: Bytes := [1, 2, 3], [0x11, 0x23];
    NodeLayout(LeafShape(p, [0xAB]));
    OffsetBytes(10);
    PathFlag(p);
    PathPairs(p, 1, 0);
    assert PathBytes(p) == data;
  }

  // ---- capacities -------------------------------------------------------------------------------

  /** The capacities of the lists in a node, as far as they decide whether its encoding is read back. */
  lemma LeafCapacity(p: Nibbles, v: Bytes)
    requires |p| < 0x1000_0000
    ensures DecodeNode(EncodeShape(LeafShape(p, v))).Ok? <==> |v| <= 100_000_000
  {
    FlaggedPair(0, PathBytes(p), v);
    DeserializeSerialize(p);
  }

  lemma ExtensionCapacity(p: Nibbles, r: Reference)
    requires |p| < 0x1000_0000
    ensures DecodeNode(EncodeShape(ExtensionShape(p, r))).Ok? <==> |r| <= 1000
  {
    FlaggedPair(1, PathBytes(p), r);
    DeserializeSerialize(p);
  }

  lemma BranchCapacity(bs: seq<Reference>, v: Bytes)
    requires |EncodeList(bs)| < 0x1000_0000
    ensures DecodeNode(EncodeShape(BranchShape(bs, v))).Ok?
       <==> |v| <= 100_000_000 && |bs| <= 16 && forall i :: 0 <= i < |bs| ==> |bs[i]| <= 1000
  {
    FlaggedPair(2, EncodeList(bs), v);
    ListRoundTrip(bs);
  }

  lemma FlaggedPair(flag: byte, a: Bytes, b: Bytes)
    requires 8 + |a| < 0x1_0000_0000
    ensures ([flag] + EncodePair(a, b))[1..] == EncodePair(a, b) && DecodePair(EncodePair(a, b)) == Ok((a, b))
  {
    PairRoundTrip(a, b);
  }

  // ---- references and the store ---------------------------------------------------------------

  /** A node stands for itself exactly below 32 bytes, and otherwise for its hash of 64. */
  lemma InlineExactly(s: Shape)
    ensures Refer(s) == EncodeShape(s) <==> |EncodeShape(s)| < 32 || BasicHash(EncodeShape(s)) == EncodeShape(s)
    ensures |EncodeShape(s)| >= 32 ==> Refer(s) == BasicHash(EncodeShape(s)) && |Refer(s)| == 64
  {
  }

  /** The root bytes of a trie, from those of its children: slot `i` holds the reference of child `i`. */
  lemma RootLayout(p: Nibbles, v: Bytes, c: Trie, kids: seq<Trie>, refs: seq<Reference>)
    requires |refs| == |kids| && forall i :: 0 <= i < |kids| ==> refs[i] == RefOf(kids[i])
    ensures RefOf(Empty) == [] && RefOf(Leaf(p, v)) == Refer(LeafShape(p, v))
    ensures RefOf(Extension(p, c)) == Refer(ExtensionShape(p, RefOf(c)))
    ensures RefOf(Branch(kids, v)) == Refer(BranchShape(refs, v))
  {
    assert Refs(Refer, kids) == refs;
    var t := Branch(kids, v);
    assert TreeRef(Refer, t) == NodeRef(Refer, t) == Refer(ShapeOf(Refer, t));
    var e := Extension(p, c);
    assert TreeRef(Refer, e) == NodeRef(Refer, e) == Refer(ShapeOf(Refer, e));
    var l := Leaf(p, v);
    assert TreeRef(Refer, l) == NodeRef(Refer, l) == Refer(ShapeOf(Refer, l));
  }

  /** What the theorems about the store assume: nodes of 32 bytes and more that were written have hashes of their
      own. */
  lemma CollisionFreeExactly(log: set<Shape>)
    ensures CollisionFree(log)
       <==> forall a, b :: a in log && b in log && a != b
              && |EncodeShape(a)| >= 32 && |EncodeShape(b)| >= 32
              ==> BasicHash(EncodeShape(a)) != BasicHash(EncodeShape(b))
  {
    forall a, b | a in log && b in log && a != b && |EncodeShape(a)| >= 32 && |EncodeShape(b)| >= 32
      && BasicHash(EncodeShape(a)) == BasicHash(EncodeShape(b)) ensures !CollisionFree(log)
    {
      assert Collide(a, b, EncodeShape, HashKey);
      assert (a, b) in Collisions(log, EncodeShape, HashKey);
    }
    if !CollisionFree(log) {
      var pair :| pair in Collisions(log, EncodeShape, HashKey);
      assert Collide(pair.0, pair.1, EncodeShape, HashKey);
    }
  }

  /** Every way in which `GetFromStorage` fails before it decodes fields, and where the bytes come from. */
  lemma FetchExactly(nodes: map<Reference, Bytes>, ref: Reference)
    ensures |ref| >= 32 && ref !in nodes <==> Fetch(nodes, ref) == Err(NodeNotFound)
    ensures ref == [] ==> Fetch(nodes, ref) == Err(EmptyByteArray)
    ensures
      |ref| < 32 || ref in nodes ==>
        var data := if |ref| < 32 then ref else nodes[ref];
        && (Fetch(nodes, ref) == Err(EmptyByteArray) <==> data == [])
        && (Fetch(nodes, ref) == Err(UnknownNodeType) <==> data != [] && data[0] > 2)
  {
    var data := if |ref| < 32 || ref !in nodes then ref else nodes[ref];
    DecodeErrors(data);
  }

  lemma DecodeErrors(data: Bytes)
    ensures DecodeNode(data) == Err(EmptyByteArray) <==> data == []
    ensures DecodeNode(data) == Err(UnknownNodeType) <==> data != [] && data[0] > 2
    ensures DecodeNode(data).Err? ==> data == [] || data[0] > 2 || DecodeNode(data).error == MalformedEncoding
  {
    if data != [] && data[0] <= 2 { FieldErrors(data[1..]); }
  }

  lemma FieldErrors(data: Bytes)
    ensures DecodePair(data).Err? ==> DecodePair(data).error == MalformedEncoding
    ensures
      DecodePair(data).Ok? ==>
        var (a, b) := DecodePair(data).value;
        && (DecodeLeaf(a, b).Err? ==> DecodeLeaf(a, b).error == MalformedEncoding)
        && (DecodeExtension(a, b).Err? ==> DecodeExtension(a, b).error == MalformedEncoding)
        && (DecodeBranch(a, b).Err? ==> DecodeBranch(a, b).error == MalformedEncoding)
  {
    if DecodePair(data).Ok? {
      var (a, b) := DecodePair(data).value;
      ListErrors(a);
    }
  }

  lemma ListErrors(data: Bytes)
    ensures DecodeList(data).Err? ==> DecodeList(data).error == MalformedEncoding
  {
    if data != [] && |data| >= OFFSET_SIZE {
      var first := OffsetAt(data, 0);
      if first % OFFSET_SIZE == 0 && first <= |data| { ItemErrors(data, 0, first / OFFSET_SIZE); }
    }
  }

  lemma {:induction false} ItemErrors(data: Bytes, k: nat, count: nat)
    requires k <= count && OFFSET_SIZE * count <= |data|
    ensures DecodeItems(data, k, count).Err? ==> DecodeItems(data, k, count).error == MalformedEncoding
    decreases count - k
  {
    if k < count { ItemErrors(data, k + 1, count); }
  }
}
