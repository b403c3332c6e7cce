/** `BasicHash` and `PathFromKey` (mpt.cpp:392-421). */
module Hashing {
  import opened ByteStrings
  import opened Paths

  const HASH_SIZE := 64
  const MAX_RAW_KEY_LEN := 32

  /** The machine bytes of a key, and the numbers they stand for. */
  function BitsOf(key: Bytes): (s: seq<bv8>)
    ensures |s| == |key| && forall i :: 0 <= i < |key| ==> s[i] == Bits(key[i])
  {
    seq(|key|, i requires 0 <= i < |key| => Bits(key[i]))
  }

  function NumbersOf(s: seq<bv8>): (key: Bytes)
    ensures |key| == |s| && forall i :: 0 <= i < |s| ==> key[i] == s[i] as int
  {
    seq(|s|, i requires 0 <= i < |s| => s[i] as int)
  }

  lemma SameNumbersSameBits(s: seq<bv8>, t: seq<bv8>)
    requires NumbersOf(s) == NumbersOf(t)
    ensures s == t
  {
    assert |s| == |NumbersOf(s)| == |t|;
    forall i | 0 <= i < |s| ensures s[i] == t[i] {
      assert NumbersOf(s)[i] == NumbersOf(t)[i];
      SameNumberSameBits(s[i], t[i]);
    }
  }

  lemma SameBitsSameKey(a: Bytes, b: Bytes)
    requires BitsOf(a) == BitsOf(b)
    ensures a == b
  {
    assert |a| == |BitsOf(a)| == |b|;
    forall i | 0 <= i < |a| ensures a[i] == b[i] {
      assert BitsOf(a)[i] == BitsOf(b)[i];
    }
  }

  function RotateLeft(x: bv8): (y: bv8) { (x << 1) | (x >> 7) }

  lemma RotateIsInjective(x: bv8, y: bv8)
    requires RotateLeft(x) == RotateLeft(y)
    ensures x == y
  {
  }

  /** Bit by bit: bit `k` moves to bit `k + 1`, and the highest one comes round. */
  lemma RotationMovesBits(x: bv8)
    ensures var y := RotateLeft(x);
      && y & 0x01 == (x & 0x80) >> 7 && y & 0x02 == (x & 0x01) << 1 && y & 0x04 == (x & 0x02) << 1
      && y & 0x08 == (x & 0x04) << 1 && y & 0x10 == (x & 0x08) << 1 && y & 0x20 == (x & 0x10) << 1
      && y & 0x40 == (x & 0x20) << 1 && y & 0x80 == (x & 0x40) << 1
  {
  }

  lemma ShiftsAreArithmetic(x: bv8)
    ensures (x << 1) as int == 2 * (x as int) % 256 && (x >> 7) as int == (x as int) / 128
  {
  }

  lemma OrIsSum(x: bv8)
    ensures ((x << 1) | (x >> 7)) as int == (x << 1) as int + (x >> 7) as int
  {
    assert (x << 1) | (x >> 7) == (x << 1) + (x >> 7);
  }

  /** In numbers: doubled, with the bit that falls out added again. */
  lemma RotationDoubles(x: bv8)
    ensures RotateLeft(x) as int == 2 * (x as int) % 256 + (x as int) / 128
  {
    ShiftsAreArithmetic(x);
    OrIsSum(x);
  }

  /** What one iteration of the second loop makes of a byte and its neighbour. */
  function Turned(x: bv8, z: bv8): (y: bv8) { RotateLeft(x ^ z) }

  lemma XorCancels(x: bv8, y: bv8, z: bv8)
    requires x ^ z == y ^ z
    ensures x == y
  {
  }

  lemma TurnedIsInjective(x: bv8, y: bv8, z: bv8)
    requires Turned(x, z) == Turned(y, z)
    ensures x == y
  {
    RotateIsInjective(x ^ z, y ^ z);
    XorCancels(x, y, z);
  }

  lemma XorLaws(x: bv8, y: bv8, z: bv8)
    ensures (x ^ y) ^ z == x ^ (y ^ z) && x ^ 0 == x && 0 ^ x == x
  {
  }

  const ZEROS: seq<bv8> := Repeat(0, HASH_SIZE)

  type Block = s: seq<bv8> | |s| == HASH_SIZE witness ZEROS

  /** `r[i] ^= x` */
  function XorInto(r: Block, i: nat, x: bv8): (s: Block)
    requires i < HASH_SIZE
  {
    r[i := r[i] ^ x]
  }

  /** The first loop: byte `i` of the key is xored into position `i % 64`. */
  function Fold(key: seq<bv8>): (r: Block)
  {
    if key == [] then ZEROS
    else
      var last := |key| - 1;
      XorInto(Fold(key[..last]), last % HASH_SIZE, key[last])
  }

  /** One iteration of the second loop, in place. */
  function Stir(r: Block, i: nat): (s: Block)
    requires i < HASH_SIZE
  {
    r[i := Turned(r[i], r[(i + 1) % HASH_SIZE])]
  }

  /** The first `n` iterations of the second loop. */
  function Stirred(r: Block, n: nat): (s: Block)
    requires n <= HASH_SIZE
  {
    if n == 0 then r else Stir(Stirred(r, n - 1), n - 1)
  }

  function BasicHash(key: Bytes): (h: Bytes)
    ensures |h| == HASH_SIZE
  {
    NumbersOf(Stirred(Fold(BitsOf(key)), HASH_SIZE))
  }

  lemma FoldSnoc(key: seq<bv8>, i: nat)
    requires i < |key|
    ensures Fold(key[..i + 1]) == XorInto(Fold(key[..i]), i % HASH_SIZE, key[i])
  {
    assert key[..i + 1][..i] == key[..i];
  }

  method FoldInto(key: Bytes, result: array<bv8>)
    requires result[..] == ZEROS
    modifies result
    ensures result[..] == Fold(BitsOf(key))
  {
    ghost var bits := BitsOf(key);
    for i := 0 to |key|
      invariant result[..] == Fold(bits[..i])
    {
      FoldSnoc(bits, i);
      result[i % HASH_SIZE] := result[i % HASH_SIZE] ^ Bits(key[i]);
    }
    assert bits[..|key|] == bits;
  }

  method StirInPlace(result: array<bv8>)
    requires result.Length == HASH_SIZE
    modifies result
    ensures result[..] == Stirred(old(result[..]), HASH_SIZE)
  {
    for i := 0 to HASH_SIZE
      invariant result[..] == Stirred(old(result[..]), i)
    {
      result[i] := result[i] ^ result[(i + 1) % HASH_SIZE];
      result[i] := RotateLeft(result[i]);
    }
  }

  method ComputeBasicHash(key: Bytes) returns (h: Bytes)
    ensures h == BasicHash(key)
  {
    var result := new bv8[HASH_SIZE](i => 0);
    FoldInto(key, result);
    StirInPlace(result);
    h := NumbersOf(result[..]);
  }

  // ---- what the pass computes ----------------------------------------------

  lemma {:induction false} StirredAt(r: Block, n: nat, i: nat)
    requires n <= HASH_SIZE && i < HASH_SIZE
    ensures
      var h := Stirred(r, n);
      h[i] == if i >= n then r[i] else RotateLeft(r[i] ^ (if i < 63 then r[i + 1] else h[0]))
  {
    if n > 0 {
      StirredAt(r, n - 1, i);
      StirredAt(r, n - 1, 0);
      if i + 1 == n < 64 { StirredAt(r, n - 1, n); }
    }
  }

  /** The whole pass: every byte is xored with the old value of its neighbour and rotated, but the last one meets
      the new value of the first. */
  lemma StirredInClosedForm(r: Block)
    ensures
      var h := Stirred(r, 64);
      && (forall i :: 0 <= i < 63 ==> h[i] == RotateLeft(r[i] ^ r[i + 1]))
      && h[63] == RotateLeft(r[63] ^ h[0])
  {
    var h := Stirred(r, 64);
    forall i | 0 <= i < 63 ensures h[i] == RotateLeft(r[i] ^ r[i + 1]) {
      StirredAt(r, 64, i);
    }
    StirredAt(r, 64, 63);
  }

  /** The hash of a single byte 1, as it goes over the wire. */
  lemma HashOfOne()
    ensures BasicHash([1]) == [2] + Repeat(0, 62) + [4]
  {
    var one: seq<bv8> := [1];
    var key: Bytes := [1];
    SameNumberSameBits(Bits(1), 1);
    assert BitsOf(key)[0] == Bits(key[0]) && BitsOf(key) == one;
    var r := Fold(one);
    FoldIsPaddedFold(one);
    var zeros: seq<bv8> := Repeat(0, 63);
    assert r == Pad(one) == one + zeros;
    StirredInClosedForm(r);
    var h := Stirred(r, 64);
    assert RotateLeft(1) == 2 && RotateLeft(2) == 4 && RotateLeft(0) == 0;
    forall i | 0 < i < 63 ensures h[i] == 0 {
      assert r[i] == 0 && r[i + 1] == 0;
    }
    XorLaws(1, 0, 0);
    XorLaws(2, 0, 0);
    assert r[0] == 1 && r[1] == 0 && r[63] == 0;
    assert h[0] == RotateLeft(r[0] ^ r[1]) == 2 && h[63] == RotateLeft(r[63] ^ h[0]) == 4;
    var hash: Bytes := [2] + Repeat(0, 62) + [4];
    assert NumbersOf(h) == hash;
  }

  lemma SameBitsOfNumbers(s: seq<bv8>)
    ensures BitsOf(NumbersOf(s)) == s
  {
    forall i | 0 <= i < |s| ensures BitsOf(NumbersOf(s))[i] == s[i] {
      SameNumberSameBits(Bits(s[i] as int), s[i]);
    }
  }

  /** The hash in terms of the padded fold of the key. */
  lemma HashInClosedForm(key: Bytes)
    ensures
      var r, h := PaddedFold(BitsOf(key)), BitsOf(BasicHash(key));
      && (forall i :: 0 <= i < 63 ==> h[i] == RotateLeft(r[i] ^ r[i + 1]))
      && h[63] == RotateLeft(r[63] ^ h[0])
  {
    FoldIsPaddedFold(BitsOf(key));
    StirredInClosedForm(Fold(BitsOf(key)));
    SameBitsOfNumbers(Stirred(Fold(BitsOf(key)), HASH_SIZE));
  }

  // ---- when two keys collide ------------------------------------------------

  lemma StirIsInjective(r: Block, s: Block, i: nat)
    requires i < HASH_SIZE && Stir(r, i) == Stir(s, i)
    ensures r == s
  {
    var j := (i + 1) % HASH_SIZE;
    forall k | 0 <= k < HASH_SIZE && k != i
      ensures r[k] == s[k]
    {
      assert Stir(r, i)[k] == Stir(s, i)[k];
    }
    assert Stir(r, i)[i] == Stir(s, i)[i];
    TurnedIsInjective(r[i], s[i], r[j]);
  }

  lemma {:induction false} StirredIsInjective(r: Block, s: Block, n: nat)
    requires n <= HASH_SIZE && Stirred(r, n) == Stirred(s, n)
    ensures r == s
  {
    if n > 0 {
      StirIsInjective(Stirred(r, n - 1), Stirred(s, n - 1), n - 1);
      StirredIsInjective(r, s, n - 1);
    }
  }

  function Pad(key: seq<bv8>): (r: Block)
    requires |key| <= HASH_SIZE
  {
    key + Repeat(0, HASH_SIZE - |key|)
  }

  function XorBlocks(a: Block, b: Block): (c: Block)
  {
    seq(HASH_SIZE, i requires 0 <= i < HASH_SIZE => a[i] ^ b[i])
  }

  /** The xor of the 64-byte blocks of the key, the last one padded with zeros. */
  function PaddedFold(key: seq<bv8>): (r: Block)
  {
    if |key| <= HASH_SIZE then Pad(key)
    else XorBlocks(key[..HASH_SIZE], PaddedFold(key[HASH_SIZE..]))
  }

  lemma {:induction false} PaddedFoldSnoc(key: seq<bv8>, x: bv8, q: nat, i: nat)
    requires |key| == HASH_SIZE * q + i && i < HASH_SIZE
    ensures PaddedFold(key + [x]) == XorInto(PaddedFold(key), i, x)
  {
    if q == 0 {
      XorLaws(x, 0, 0);
    } else {
      var front, rest := key[..HASH_SIZE], key[HASH_SIZE..];
      assert (key + [x])[..HASH_SIZE] == front && (key + [x])[HASH_SIZE..] == rest + [x];
      if rest == [] {
        OneMoreBlock(front, x);
        assert key == front && rest + [x] == [x];
      } else {
        PaddedFoldSnoc(rest, x, q - 1, i);
        XorBlocksUpdate(front, PaddedFold(rest), i, x);
      }
    }
  }

  lemma OneMoreBlock(front: Block, x: bv8)
    ensures XorBlocks(front, Pad([x])) == XorInto(front, 0, x)
  {
    var c := Pad([x]);
    forall k | 0 < k < HASH_SIZE
      ensures front[k] ^ c[k] == front[k]
    {
      XorLaws(front[k], 0, 0);
    }
  }

  lemma XorBlocksUpdate(front: Block, r: Block, i: nat, x: bv8)
    requires i < HASH_SIZE
    ensures XorBlocks(front, XorInto(r, i, x)) == XorInto(XorBlocks(front, r), i, x)
  {
    XorLaws(front[i], r[i], x);
  }

  lemma {:induction false} FoldIsPaddedFold(key: seq<bv8>)
    ensures Fold(key) == PaddedFold(key)
  {
    if key != [] {
      var m := |key| - 1;
      FoldIsPaddedFold(key[..m]);
      PaddedFoldSnoc(key[..m], key[m], m / HASH_SIZE, m % HASH_SIZE);
      assert key[..m] + [key[m]] == key;
    }
  }

  /** The in-place pass is a bijection, so the hash collides exactly when the padded folds agree. */
  lemma CollisionIffFoldsAgree(a: Bytes, b: Bytes)
    ensures BasicHash(a) == BasicHash(b) <==> PaddedFold(BitsOf(a)) == PaddedFold(BitsOf(b))
  {
    var x, y := BitsOf(a), BitsOf(b);
    FoldIsPaddedFold(x);
    FoldIsPaddedFold(y);
    if BasicHash(a) == BasicHash(b) {
      SameNumbersSameBits(Stirred(Fold(x), HASH_SIZE), Stirred(Fold(y), HASH_SIZE));
      StirredIsInjective(Fold(x), Fold(y), HASH_SIZE);
    }
  }

  lemma XorRegroups(r: bv8, x: bv8, y: bv8)
    ensures (r ^ x) ^ y == (r ^ y) ^ x && (r ^ x) ^ (x ^ y) == r ^ y
  {
  }

  lemma XorShows(r: bv8, x: bv8, y: bv8)
    ensures r ^ (x ^ y) == r <==> x == y
  {
  }

  lemma UpdatesCommute<T>(s: seq<T>, i: nat, x: T, j: nat, y: T)
    requires i < |s| && j < |s| && i != j
    ensures s[i := x][j := y] == s[j := y][i := x]
  {
  }

  lemma XorIntoCommutes(r: Block, i: nat, x: bv8, j: nat, y: bv8)
    requires i < HASH_SIZE && j < HASH_SIZE
    ensures XorInto(XorInto(r, i, x), j, y) == XorInto(XorInto(r, j, y), i, x)
  {
    if i == j {
      XorRegroups(r[i], x, y);
    } else {
      UpdatesCommute(r, i, r[i] ^ x, j, r[j] ^ y);
    }
  }

  lemma XorIntoTwice(r: Block, i: nat, x: bv8, y: bv8)
    requires i < HASH_SIZE
    ensures XorInto(XorInto(r, i, x), i, x ^ y) == XorInto(r, i, y)
  {
    XorRegroups(r[i], x, y);
  }

  lemma {:induction false} FoldUpdate(key: seq<bv8>, i: nat, x: bv8)
    requires i < |key|
    ensures Fold(key[i := x]) == XorInto(Fold(key), i % HASH_SIZE, key[i] ^ x)
  {
    var last := |key| - 1;
    var front, r := key[..last], Fold(key[..last]);
    if i < last {
      FoldUpdate(front, i, x);
      assert key[i := x][..last] == front[i := x];
      XorIntoCommutes(r, i % HASH_SIZE, key[i] ^ x, last % HASH_SIZE, key[last]);
    } else {
      assert key[i := x][..last] == front;
      XorIntoTwice(r, i % HASH_SIZE, key[i], x);
    }
  }

  /** Every byte of a key of any length counts: changing it alone changes the hash. */
  lemma EveryByteCounts(key: Bytes, i: nat, b: byte)
    requires i < |key|
    ensures BasicHash(key[i := b]) == BasicHash(key) <==> b == key[i]
  {
    var x, y := BitsOf(key), Bits(b);
    assert BitsOf(key[i := b]) == x[i := y];
    var r, k := Fold(x), i % HASH_SIZE;
    FoldUpdate(x, i, y);
    XorShows(r[k], x[i], y);
    if BasicHash(key[i := b]) == BasicHash(key) {
      SameNumbersSameBits(Stirred(Fold(x[i := y]), HASH_SIZE), Stirred(r, HASH_SIZE));
      StirredIsInjective(Fold(x[i := y]), r, HASH_SIZE);
      assert XorInto(r, k, x[i] ^ y)[k] == r[k];
    } else {
      assert key[i := key[i]] == key;
    }
  }

  /** Trailing zero bytes are invisible to the hash: two different encodings can collide. */
  lemma TrailingZeroCollides(a: Bytes)
    ensures BasicHash(a + [0]) == BasicHash(a) && a + [0] != a
  {
    var x := BitsOf(a);
    assert BitsOf(a + [0]) == x + [0];
    PaddedFoldSnoc(x, 0, |x| / HASH_SIZE, |x| % HASH_SIZE);
    XorLaws(PaddedFold(x)[|x| % HASH_SIZE], 0, 0);
    CollisionIffFoldsAgree(a + [0], a);
    assert |a + [0]| != |a|;
  }

  /** The fold repeats after 64 bytes: a block followed by itself hashes like nothing at all. */
  lemma BlocksCancel(block: Bytes)
    requires |block| == 64
    ensures BasicHash(block + block) == BasicHash([])
  {
    var x := BitsOf(block);
    assert BitsOf(block + block) == x + x && BitsOf([]) == [];
    assert (x + x)[..64] == x && (x + x)[64..] == x;
    assert Pad(x) == x && Pad([]) == ZEROS;
    forall i | 0 <= i < 64 ensures XorBlocks(x, x)[i] == 0 {
    }
    assert PaddedFold(x + x) == XorBlocks(x, x) == ZEROS;
    CollisionIffFoldsAgree(block + block, []);
  }

  // ---- keys to paths -----------------------------------------------------------

  function PathFromKey(key: Bytes): (p: Path)
    ensures p.Valid()
  {
    Path(if |key| > MAX_RAW_KEY_LEN then BasicHash(key) else key, 0)
  }

  function KeyPath(key: Bytes): (ns: Nibbles)
    ensures |ns| <= 2 * HASH_SIZE
  {
    PathFromKey(key).View()
  }

  /** The path of a key: the nibbles of its bytes up to 32 of them, and of its hash beyond. */
  lemma KeyPathNibbles(key: Bytes, i: nat)
    requires i < if |key| <= 32 then |key| else 64
    ensures
      var data := if |key| <= 32 then key else BasicHash(key);
      && |KeyPath(key)| == 2 * |data|
      && KeyPath(key)[2 * i] == data[i] / 16 && KeyPath(key)[2 * i + 1] == data[i] % 16
  {
    ExpandAt(PathFromKey(key).data, i);
  }

  lemma SamePathSameBytes(a: Bytes, b: Bytes)
    requires KeyPath(a) == KeyPath(b)
    ensures PathFromKey(a).data == PathFromKey(b).data
  {
    PairsExpand(PathFromKey(a).data);
    PairsExpand(PathFromKey(b).data);
    assert Expand(PathFromKey(a).data)[0..] == Expand(PathFromKey(a).data);
    assert Expand(PathFromKey(b).data)[0..] == Expand(PathFromKey(b).data);
  }

  /** Keys of one fixed length up to 64 bytes never share a path. */
  lemma PathFromKeyIsInjective(a: Bytes, b: Bytes)
    requires |a| == |b| <= HASH_SIZE && KeyPath(a) == KeyPath(b)
    ensures a == b
  {
    SamePathSameBytes(a, b);
    if |a| > MAX_RAW_KEY_LEN {
      CollisionIffFoldsAgree(a, b);
      var x, y := BitsOf(a), BitsOf(b);
      assert x == Pad(x)[..|a|] && y == Pad(y)[..|a|];
      SameBitsSameKey(a, b);
    }
  }

  /** A raw key and a hashed key never share a path, and raw keys never share one. */
  lemma RawPathsAreTheirOwn(a: Bytes, b: Bytes)
    requires |a| <= MAX_RAW_KEY_LEN && KeyPath(a) == KeyPath(b)
    ensures a == b
  {
    SamePathSameBytes(a, b);
  }
}
