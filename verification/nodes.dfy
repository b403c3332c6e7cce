/** Trie nodes and their byte encoding (node.hpp, node.cpp). */
module Nodes {
  import opened ByteStrings
  import opened Paths
  import opened Ssz

  const BRANCHES_NUM := 16
  const MAX_VALUE := 100_000_000  // list limits of node.hpp
  const MAX_REFERENCE := 1000

  const LEAF_FLAG: byte := 0
  const EXTENSION_FLAG: byte := 1
  const BRANCH_FLAG: byte := 2

  type Reference = Bytes

  /** A node with the nibbles of its path in place of their packing. */
  datatype Shape =
    | LeafShape(path: Nibbles, value: Bytes)
    | ExtensionShape(path: Nibbles, next: Reference)
    | BranchShape(branches: seq<Reference>, value: Bytes)

  datatype Node =
    | LeafNode(path: Path, value: Bytes)
    | ExtensionNode(path: Path, next: Reference)
    | BranchNode(branches: seq<Reference>, value: Bytes)
  {
    predicate Valid() { BranchNode? || path.Valid() }

    function Shape(): (s: Shape)
      requires Valid()
    {
      match this
      case LeafNode(p, v) => LeafShape(p.View(), v)
      case ExtensionNode(p, r) => ExtensionShape(p.View(), r)
      case BranchNode(bs, v) => BranchShape(bs, v)
    }
  }

  /** The capacities of the SSZ fields, and offsets that fit in four bytes. */
  predicate Encodable(s: Shape)
  {
    match s
    case LeafShape(p, v) => PathFits(p) && |v| <= MAX_VALUE
    case ExtensionShape(p, r) => PathFits(p) && |r| <= MAX_REFERENCE
    case BranchShape(bs, v) =>
      |bs| == BRANCHES_NUM && |v| <= MAX_VALUE && forall i :: 0 <= i < |bs| ==> |bs[i]| <= MAX_REFERENCE
  }

  predicate PathFits(p: Nibbles)
  {
    2 * OFFSET_SIZE + |PathBytes(p)| < OFFSET_LIMIT
  }

  /** The encoding depends on the nibbles of a path, not on how they are packed. */
  function EncodeShape(s: Shape): (data: Bytes)
    ensures |data| > 0
  {
    match s
    case LeafShape(p, v) => [LEAF_FLAG] + EncodePair(PathBytes(p), v)
    case ExtensionShape(p, r) => [EXTENSION_FLAG] + EncodePair(PathBytes(p), r)
    case BranchShape(bs, v) => [BRANCH_FLAG] + EncodePair(EncodeList(bs), v)
  }

  method Encode(n: Node) returns (data: Bytes)
    requires n.Valid()
    ensures data == EncodeShape(n.Shape())
  {
    match n {
      case LeafNode(p, v) =>
        var packed := Serialize(p);
        data := [LEAF_FLAG] + EncodePair(packed, v);
      case ExtensionNode(p, r) =>
        var packed := Serialize(p);
        data := [EXTENSION_FLAG] + EncodePair(packed, r);
      case BranchNode(bs, v) =>
        data := [BRANCH_FLAG] + EncodePair(EncodeList(bs), v);
    }
  }

  function DecodePath(data: Bytes): (r: Result<Path>)
    ensures r.Ok? ==> r.value.Valid()
  {
    match Deserialize(data)
    case Some(p) => Ok(p)
    case None => Err(MalformedEncoding)
  }

  function DecodeBranches(data: Bytes): (r: Result<seq<Reference>>)
    ensures r.Ok? ==> |r.value| <= BRANCHES_NUM
  {
    match DecodeList(data)
    case Ok(bs) =>
      if |bs| <= BRANCHES_NUM && forall i :: 0 <= i < |bs| ==> |bs[i]| <= MAX_REFERENCE then Ok(bs)
      else Err(MalformedEncoding)
    case Err(e) => Err(e)
  }

  function DecodeLeaf(a: Bytes, b: Bytes): (r: Result<Node>)
    ensures r.Ok? ==> r.value.Valid()
  {
    match DecodePath(a)
    case Ok(p) => if |b| <= MAX_VALUE then Ok(LeafNode(p, b)) else Err(MalformedEncoding)
    case Err(e) => Err(e)
  }

  function DecodeExtension(a: Bytes, b: Bytes): (r: Result<Node>)
    ensures r.Ok? ==> r.value.Valid()
  {
    match DecodePath(a)
    case Ok(p) => if |b| <= MAX_REFERENCE then Ok(ExtensionNode(p, b)) else Err(MalformedEncoding)
    case Err(e) => Err(e)
  }

  function DecodeBranch(a: Bytes, b: Bytes): (r: Result<Node>)
    ensures r.Ok? ==> r.value.Valid()
  {
    match DecodeBranches(a)
    case Ok(bs) => if |b| <= MAX_VALUE then Ok(BranchNode(bs, b)) else Err(MalformedEncoding)
    case Err(e) => Err(e)
  }

  function DecodeNode(data: Bytes): (r: Result<Node>)
    ensures r.Ok? ==> r.value.Valid()
  {
    if data == [] then Err(EmptyByteArray)
    else if data[0] > BRANCH_FLAG then Err(UnknownNodeType)
    else
      match DecodePair(data[1..])
      case Err(e) => Err(e)
      case Ok((a, b)) =>
        if data[0] == LEAF_FLAG then DecodeLeaf(a, b)
        else if data[0] == EXTENSION_FLAG then DecodeExtension(a, b)
        else DecodeBranch(a, b)
  }

  /** `get_branches`: a fixed array of sixteen, filled slot by slot. */
  method GetBranches(bs: seq<Reference>) returns (arr: seq<Reference>)
    requires |bs| <= BRANCHES_NUM
    ensures arr == bs + Repeat([], BRANCHES_NUM - |bs|)
  {
    arr := Repeat([], BRANCHES_NUM);
    for i := 0 to |bs|
      invariant arr == bs[..i] + Repeat([], BRANCHES_NUM - i)
    {
      arr := arr[i := bs[i]];
    }
  }

  lemma {:induction false} ConcatBound(bs: seq<Bytes>, bound: nat)
    requires forall i :: 0 <= i < |bs| ==> |bs[i]| <= bound
    ensures |Concat(bs)| <= bound * |bs|
  {
    if bs != [] {
      ConcatBound(bs[1..], bound);
      assert bound * |bs| == bound + bound * |bs[1..]|;
    }
  }

  /** `DecodeNode(Encode(n))` is `n`, paths being compared as nibbles. */
  lemma NodeRoundTrip(s: Shape)
    requires Encodable(s)
    ensures DecodeNode(EncodeShape(s)).Ok?
    ensures DecodeNode(EncodeShape(s)).value.Shape() == s
  {
    var data := EncodeShape(s);
    match s {
      case LeafShape(p, v) =>
        PairRoundTrip(PathBytes(p), v);
        DeserializeSerialize(p);
        assert data[1..] == EncodePair(PathBytes(p), v);
      case ExtensionShape(p, r) =>
        PairRoundTrip(PathBytes(p), r);
        DeserializeSerialize(p);
        assert data[1..] == EncodePair(PathBytes(p), r);
      case BranchShape(bs, v) =>
        ConcatBound(bs, MAX_REFERENCE);
        ListRoundTrip(bs);
        PairRoundTrip(EncodeList(bs), v);
        assert data[1..] == EncodePair(EncodeList(bs), v);
    }
  }

  lemma EncodingIsInjective(s: Shape, u: Shape)
    requires Encodable(s) && Encodable(u) && EncodeShape(s) == EncodeShape(u)
    ensures s == u
  {
    NodeRoundTrip(s);
    NodeRoundTrip(u);
  }
}
