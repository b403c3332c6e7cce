/** The part of SimpleSerialize (Ethereum consensus specifications, section "Serialization") that the
    trie nodes use: 4-byte little-endian offsets followed by the variable-size bodies. */
module Ssz {
  import opened ByteStrings

  const OFFSET_SIZE := 4
  const OFFSET_LIMIT := 0x1_0000_0000

  function Pow256(k: nat): (p: nat)
    ensures p >= 1
  {
    if k == 0 then 1 else 256 * Pow256(k - 1)
  }

  /** The low `k` bytes of `n`, least significant first; larger numbers wrap around. */
  function LittleEndian(n: nat, k: nat): (s: Bytes)
    ensures |s| == k
  {
    if k == 0 then [] else [n % 256] + LittleEndian(n / 256, k - 1)
  }

  function Number(s: Bytes): (n: nat)
  {
    if s == [] then 0 else s[0] + 256 * Number(s[1..])
  }

  lemma {:induction false} LittleEndianRoundTrip(n: nat, k: nat)
    requires n < Pow256(k)
    ensures Number(LittleEndian(n, k)) == n
  {
    if k > 0 {
      LittleEndianRoundTrip(n / 256, k - 1);
    }
  }

  function Offset(n: nat): (s: Bytes)
    ensures |s| == OFFSET_SIZE
  {
    LittleEndian(n, OFFSET_SIZE)
  }

  lemma OffsetRoundTrip(n: nat)
    requires n < OFFSET_LIMIT
    ensures Number(Offset(n)) == n
  {
    assert Pow256(4) == 256 * Pow256(3) == 256 * 256 * Pow256(2) == 256 * 256 * 256 * Pow256(1);
    LittleEndianRoundTrip(n, OFFSET_SIZE);
  }

  // ---- a container with two variable-size fields ------------------------------

  function EncodePair(a: Bytes, b: Bytes): (data: Bytes)
    ensures |data| == 2 * OFFSET_SIZE + |a| + |b|
  {
    Offset(2 * OFFSET_SIZE) + Offset(2 * OFFSET_SIZE + |a|) + a + b
  }

  function DecodePair(data: Bytes): (r: Result<(Bytes, Bytes)>)
  {
    if |data| < 2 * OFFSET_SIZE then Err(MalformedEncoding)
    else
      var first, second := Number(data[..4]), Number(data[4..8]);
      if first != 2 * OFFSET_SIZE || second < first || |data| < second then Err(MalformedEncoding)
      else Ok((data[first..second], data[second..]))
  }

  lemma PairRoundTrip(a: Bytes, b: Bytes)
    requires 2 * OFFSET_SIZE + |a| < OFFSET_LIMIT
    ensures DecodePair(EncodePair(a, b)) == Ok((a, b))
  {
    var data := EncodePair(a, b);
    OffsetRoundTrip(8);
    OffsetRoundTrip(8 + |a|);
    assert data[..4] == Offset(8) && data[4..8] == Offset(8 + |a|);
    assert data[8..8 + |a|] == a && data[8 + |a|..] == b;
  }

  // ---- a list of byte lists -----------------------------------------------------

  function Offsets(xs: seq<Bytes>, start: nat): (data: Bytes)
    ensures |data| == OFFSET_SIZE * |xs|
  {
    if xs == [] then [] else Offset(start) + Offsets(xs[1..], start + |xs[0]|)
  }

  function EncodeList(xs: seq<Bytes>): (data: Bytes)
    ensures |data| == OFFSET_SIZE * |xs| + |Concat(xs)|
  {
    Offsets(xs, OFFSET_SIZE * |xs|) + Concat(xs)
  }

  function OffsetAt(data: Bytes, k: nat): (n: nat)
    requires OFFSET_SIZE * (k + 1) <= |data|
  {
    Number(data[OFFSET_SIZE * k..OFFSET_SIZE * (k + 1)])
  }

  /** The items from the `k`-th on, each reaching to the next one's offset. */
  function DecodeItems(data: Bytes, k: nat, count: nat): (r: Result<seq<Bytes>>)
    requires k <= count && OFFSET_SIZE * count <= |data|
    decreases count - k
  {
    if k == count then Ok([])
    else
      var start := OffsetAt(data, k);
      var end := if k + 1 < count then OffsetAt(data, k + 1) else |data|;
      if end < start || |data| < end then Err(MalformedEncoding)
      else
        match DecodeItems(data, k + 1, count)
        case Ok(rest) => Ok([data[start..end]] + rest)
        case Err(e) => Err(e)
  }

  function DecodeList(data: Bytes): (r: Result<seq<Bytes>>)
  {
    if data == [] then Ok([])
    else if |data| < OFFSET_SIZE then Err(MalformedEncoding)
    else
      var first := OffsetAt(data, 0);
      if first == 0 || first % OFFSET_SIZE != 0 || |data| < first then Err(MalformedEncoding)
      else DecodeItems(data, 0, first / OFFSET_SIZE)
  }

  lemma {:induction false} OffsetsAt(xs: seq<Bytes>, start: nat, k: nat)
    requires k < |xs| && start + |Concat(xs)| < OFFSET_LIMIT
    ensures OffsetAt(Offsets(xs, start), k) == start + |Concat(xs[..k])|
  {
    var data, rest := Offsets(xs, start), Offsets(xs[1..], start + |xs[0]|);
    if k == 0 {
      OffsetRoundTrip(start);
      assert data[..4] == Offset(start);
    } else {
      OffsetsAt(xs[1..], start + |xs[0]|, k - 1);
      assert data[4 * k..4 * (k + 1)] == rest[4 * (k - 1)..4 * k];
      assert xs[..k] == [xs[0]] + xs[1..][..k - 1];
    }
  }

  lemma {:induction false} ItemsRoundTrip(xs: seq<Bytes>, k: nat)
    requires k <= |xs| && |EncodeList(xs)| < OFFSET_LIMIT
    ensures DecodeItems(EncodeList(xs), k, |xs|) == Ok(xs[k..])
    decreases |xs| - k
  {
    if k < |xs| {
      ItemRoundTrip(xs, k);
      ItemsRoundTrip(xs, k + 1);
      assert xs[k..] == [xs[k]] + xs[k + 1..];
    } else {
      assert xs[k..] == [];
    }
  }

  /** Where item `k` starts, or where the list ends when there is no item `k`. */
  lemma StartOfItem(xs: seq<Bytes>, k: nat)
    requires k <= |xs| && |EncodeList(xs)| < OFFSET_LIMIT
    ensures
      (if k < |xs| then OffsetAt(EncodeList(xs), k) else |EncodeList(xs)|)
      == OFFSET_SIZE * |xs| + |Concat(xs[..k])|
  {
    if k < |xs| {
      var data, table := EncodeList(xs), Offsets(xs, 4 * |xs|);
      OffsetsAt(xs, 4 * |xs|, k);
      assert data[4 * k..4 * (k + 1)] == table[4 * k..4 * (k + 1)];
    } else {
      assert xs[..k] == xs;
    }
  }

  lemma ItemRoundTrip(xs: seq<Bytes>, k: nat)
    requires k < |xs| && |EncodeList(xs)| < OFFSET_LIMIT
    ensures
      var data := EncodeList(xs);
      var start := OffsetAt(data, k);
      var end := if k + 1 < |xs| then OffsetAt(data, k + 1) else |data|;
      start <= end <= |data| && data[start..end] == xs[k]
  {
    var data, table := EncodeList(xs), Offsets(xs, 4 * |xs|);
    var before, after := Concat(xs[..k]), Concat(xs[k + 1..]);
    StartOfItem(xs, k);
    StartOfItem(xs, k + 1);
    assert xs == xs[..k + 1] + xs[k + 1..] && xs[..k + 1] == xs[..k] + [xs[k]];
    ConcatSplit(xs[..k + 1], xs[k + 1..]);
    ConcatSplit(xs[..k], [xs[k]]);
    assert Concat([xs[k]]) == xs[k];
    assert data == (table + before) + xs[k] + after;
  }

  lemma ListRoundTrip(xs: seq<Bytes>)
    requires |EncodeList(xs)| < OFFSET_LIMIT
    ensures DecodeList(EncodeList(xs)) == Ok(xs)
  {
    if xs != [] {
      OffsetsAt(xs, OFFSET_SIZE * |xs|, 0);
      assert EncodeList(xs)[0..4] == Offsets(xs, OFFSET_SIZE * |xs|)[0..4];
      ItemsRoundTrip(xs, 0);
    }
  }
}
