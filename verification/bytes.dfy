/** Bytes, nibbles and the outcome types shared by the whole model. */
module ByteStrings {

  /** A byte is a number; the lemmas below tie its arithmetic to the machine's shifts and masks. */
  type byte = b: int | 0 <= b < 256
  type Bytes = seq<byte>

  /** Half a byte: the alphabet of trie paths. */
  type nibble = n: int | 0 <= n < 16
  type Nibbles = seq<nibble>

  datatype Option<+T> = None | Some(value: T)

  /** `Err` stands for an exception thrown by the source. */
  datatype Result<+T> = Ok(value: T) | Err(error: Error)
  datatype Error =
    | EmptyByteArray
    | UnknownNodeType
    | MalformedEncoding
    | NodeNotFound
    | NotInitialized
    | KeyNotFound
    | RemoveError
    | InvalidAction
    | OutOfRange
    | BadAccess  // undefined behaviour: a read outside an object

  /** `b >> 4` */
  function High(b: byte): (n: nibble) { b / 16 }

  /** `b & 0x0F` */
  function Low(b: byte): (n: nibble) { b % 16 }

  /** `(high << 4) | low` */
  function Pack(high: nibble, low: nibble): (b: byte) { 16 * high + low }

  lemma HalvesOfPack(high: nibble, low: nibble)
    ensures High(Pack(high, low)) == high && Low(Pack(high, low)) == low
  {
  }

  /** The machine byte with the value `b`. */
  function Bits(b: byte): (x: bv8)
    ensures x as int == b
  {
    if b == 0 then 0 else Bits(b - 1) + 1
  }

  lemma SameNumberSameBits(x: bv8, y: bv8)
    requires x as int == y as int
    ensures x == y
  {
  }

  lemma HighIsShift(b: bv8)
    ensures High(b as int) == (b >> 4) as int
  {
  }

  lemma LowIsMask(b: bv8)
    ensures Low(b as int) == (b & 0x0F) as int
  {
  }

  lemma OddFlagIsMask(b: bv8)
    ensures High(b as int) % 2 == 1 <==> b & 0x10 == 0x10
  {
  }

  lemma ShiftAndOr(high: bv8, low: bv8)
    requires high < 16 && low < 16
    ensures Pack(high as int, low as int) == ((high << 4) | low) as int
    ensures Pack(1, low as int) == (0x10 | low) as int
  {
  }

  function Min(a: int, b: int): int { if a <= b then a else b }

  function Repeat<T>(x: T, n: nat): (s: seq<T>)
    ensures |s| == n && forall i :: 0 <= i < n ==> s[i] == x
  {
    seq(n, i => x)
  }

  lemma Regroup(a: Bytes, b: Bytes, c: Bytes)
    ensures a + b + c == a + (b + c)
  {
  }

  lemma SlicesOfSum(a: Bytes, b: Bytes, i: nat, j: nat)
    requires i <= j <= |a|
    ensures (a + b)[i..j] == a[i..j] && (a + b)[|a|..] == b
  {
  }

  lemma SliceOfTail(a: Bytes, b: Bytes, i: nat, j: nat)
    requires i <= j <= |b|
    ensures (a + b)[|a| + i..|a| + j] == b[i..j]
  {
  }

  function Concat(xs: seq<Bytes>): (data: Bytes)
  {
    if xs == [] then [] else xs[0] + Concat(xs[1..])
  }

  lemma {:induction false} ConcatSplit(xs: seq<Bytes>, ys: seq<Bytes>)
    ensures Concat(xs + ys) == Concat(xs) + Concat(ys)
  {
    if xs == [] {
      assert xs + ys == ys;
    } else {
      ConcatSplit(xs[1..], ys);
      assert (xs + ys)[1..] == xs[1..] + ys && (xs + ys)[0] == xs[0];
      assert Concat(xs + ys) == xs[0] + (Concat(xs[1..]) + Concat(ys));
    }
  }

  lemma ConcatSnoc(front: seq<Bytes>, last: Bytes, chunks: seq<Bytes>)
    requires chunks == front + [last]
    ensures Concat(chunks) == Concat(front) + last
  {
    ConcatSplit(front, [last]);
    assert Concat([last]) == last;
  }

  /** A loop that appends the items of a list one by one. */
  lemma AppendOne(head: Bytes, list: seq<Bytes>, i: nat, before: Bytes, after: Bytes)
    requires i < |list| && before == head + Concat(list[..i]) && after == before + list[i]
    ensures after == head + Concat(list[..i + 1])
  {
    ConcatSnoc(list[..i], list[i], list[..i + 1]);
  }

  lemma AppendEnds(head: Bytes, list: seq<Bytes>)
    ensures head + Concat(list[..0]) == head && Concat(list[..|list|]) == Concat(list)
  {
    assert list[..|list|] == list && list[..0] == [];
  }
}
