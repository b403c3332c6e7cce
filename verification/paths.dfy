/** The packed nibble path (path.hpp, path.cpp): bytes plus a count of skipped leading nibbles. */
module Paths {
  import opened ByteStrings

  /** The nibbles of `data`, high half first. */
  function Expand(data: Bytes): (ns: Nibbles)
    ensures |ns| == 2 * |data|
  {
    if data == [] then []
    else Expand(data[..|data| - 1]) + [High(data[|data| - 1]), Low(data[|data| - 1])]
  }

  lemma {:induction false} ExpandAt(data: Bytes, i: nat)
    requires i < |data|
    ensures Expand(data)[2 * i] == High(data[i]) && Expand(data)[2 * i + 1] == Low(data[i])
  {
    if i < |data| - 1 {
      ExpandAt(data[..|data| - 1], i);
    }
  }

  lemma {:induction false} ExpandCons(b: byte, data: Bytes)
    ensures Expand([b] + data) == [High(b), Low(b)] + Expand(data)
  {
    if data != [] {
      var m := |data| - 1;
      ExpandCons(b, data[..m]);
      assert ([b] + data)[..m + 1] == [b] + data[..m];
    }
  }

  /** Full bytes holding the nibbles of `ns`, two by two. */
  function Pairs(ns: Nibbles): (data: Bytes)
    ensures |data| == |ns| / 2
  {
    if |ns| < 2 then []
    else Pairs(ns[..|ns| - 2]) + [Pack(ns[|ns| - 2], ns[|ns| - 1])]
  }

  lemma PairsStep(ns: Nibbles, from: nat, pos: nat)
    requires from <= pos <= |ns| - 2
    ensures Pairs(ns[from..pos + 2]) == Pairs(ns[from..pos]) + [Pack(ns[pos], ns[pos + 1])]
  {
    assert ns[from..pos + 2][..pos - from] == ns[from..pos];
  }

  lemma {:induction false} ExpandPairs(ns: Nibbles, n: nat)
    requires |ns| == 2 * n
    ensures Expand(Pairs(ns)) == ns
  {
    if n > 0 {
      ExpandPairs(ns[..|ns| - 2], n - 1);
      HalvesOfPack(ns[|ns| - 2], ns[|ns| - 1]);
    }
  }

  lemma {:induction false} PairsExpand(data: Bytes)
    ensures Pairs(Expand(data)) == data
  {
    if data != [] {
      var m := |data| - 1;
      PairsExpand(data[..m]);
      assert Pack(High(data[m]), Low(data[m])) == data[m];
      assert Expand(data)[..2 * m] == Expand(data[..m]);
      assert data == data[..m] + [data[m]];
    }
  }

  lemma Halve(size: nat) returns (odd: nat, n: nat)
    ensures odd == size % 2 && size == odd + 2 * n
  {
    odd, n := size % 2, size / 2;
  }

  /** A path value; the nibbles it denotes are `View()`. */
  datatype Path = Path(data: Bytes, offset: nat) {
    predicate Valid() { offset <= 2 * |data| }

    function Size(): (n: nat)
      requires Valid()
    {
      2 * |data| - offset
    }

    function View(): (ns: Nibbles)
      requires Valid()
      ensures |ns| == Size()
    {
      Expand(data)[offset..]
    }

    /** `operator[]`, which reads past the bytes when the index is too large. */
    method Nth(idx: nat) returns (n: nibble)
      requires Valid() && idx < Size()
      ensures n == View()[idx]
    {
      var k := idx + offset;
      ExpandAt(data, k / 2);
      n := if k % 2 == 0 then High(data[k / 2]) else Low(data[k / 2]);
    }

    method At(idx: nat) returns (r: Result<nibble>)
      requires Valid()
      ensures r == if idx < |View()| then Ok(View()[idx]) else Err(OutOfRange)
    {
      if idx >= Size() {
        return Err(OutOfRange);
      }
      var n := Nth(idx);
      r := Ok(n);
    }
  }

  const EMPTY_PATH := Path([], 0)

  /** `operator==` */
  method Equals(a: Path, b: Path) returns (r: bool)
    requires a.Valid() && b.Valid()
    ensures r <==> a.View() == b.View()
  {
    if b.Size() != a.Size() {
      return false;
    }
    for i := 0 to a.Size()
      invariant forall j :: 0 <= j < i ==> a.View()[j] == b.View()[j]
    {
      var x := a.Nth(i);
      var y := b.Nth(i);
      if x != y {
        return false;
      }
    }
    return true;
  }

  method StartsWith(a: Path, b: Path) returns (r: bool)
    requires a.Valid() && b.Valid()
    ensures r <==> b.View() <= a.View()
  {
    if b.Size() > a.Size() {
      return false;
    }
    for i := 0 to b.Size()
      invariant forall j :: 0 <= j < i ==> a.View()[j] == b.View()[j]
    {
      var x := a.Nth(i);
      var y := b.Nth(i);
      if x != y {
        return false;
      }
    }
    return true;
  }

  /** Length of the longest common prefix. */
  function CommonLen(a: Nibbles, b: Nibbles): (n: nat)
    ensures n <= |a| && n <= |b| && a[..n] == b[..n]
    ensures n < |a| && n < |b| ==> a[n] != b[n]
  {
    if a != [] && b != [] && a[0] == b[0] then
      var m := CommonLen(a[1..], b[1..]);
      assert a[..m + 1] == [a[0]] + a[1..][..m] && b[..m + 1] == [b[0]] + b[1..][..m];
      m + 1
    else 0
  }

  /** Any common prefix is no longer than `CommonLen`. */
  lemma CommonLenIsMaximal(a: Nibbles, b: Nibbles, c: Nibbles)
    requires c <= a && c <= b
    ensures |c| <= CommonLen(a, b)
  {
    var n := CommonLen(a, b);
    forall i | 0 <= i < |c| ensures a[i] == b[i] {
      assert c[i] == a[i];
    }
  }

  lemma CommonLenIs(a: Nibbles, b: Nibbles, n: nat)
    requires n <= |a| && n <= |b| && a[..n] == b[..n]
    requires n < |a| && n < |b| ==> a[n] != b[n]
    ensures CommonLen(a, b) == n
  {
    var m := CommonLen(a, b);
    forall i | 0 <= i < n ensures a[i] == b[i] {
      assert a[..n][i] == b[..n][i];
    }
    forall i | 0 <= i < m ensures a[i] == b[i] {
      assert a[..m][i] == b[..m][i];
    }
  }

  /** The shape in which the source rebuilds a path: one low nibble first when the length is odd. */
  function Repacked(ns: Nibbles): (p: Path)
    ensures p.Valid() && p.View() == ns
  {
    if |ns| % 2 == 1 then
      ExpandPairs(ns[1..], |ns| / 2);
      HalvesOfPack(0, ns[0]);
      ExpandCons(Pack(0, ns[0]), Pairs(ns[1..]));
      Path([Pack(0, ns[0])] + Pairs(ns[1..]), 1)
    else
      ExpandPairs(ns, |ns| / 2);
      Path(Pairs(ns), 0)
  }

  /** The loop shared by `ConstructFromPrefix` and `serialize`: pushes full bytes until `length`. */
  method PushPairs(a: Path, head: Bytes, from: nat, length: nat, ghost n: nat) returns (data: Bytes)
    requires a.Valid() && length == from + 2 * n <= a.Size()
    ensures data == head + Pairs(a.View()[from..length])
  {
    ghost var ns := a.View();
    data := head;
    var pos := from;
    ghost var k := 0;
    while pos < length
      invariant pos == from + 2 * k && k <= n
      invariant data == head + Pairs(ns[from..pos])
    {
      var high := a.Nth(pos);
      var low := a.Nth(pos + 1);
      data := data + [Pack(high, low)];
      PairsStep(ns, from, pos);
      pos, k := pos + 2, k + 1;
    }
  }

  method ConstructFromPrefix(a: Path, length: nat) returns (r: Path)
    requires a.Valid() && length <= a.Size()
    ensures r == Repacked(a.View()[..length])
  {
    ghost var odd, n := Halve(length);
    var data: Bytes, pos := [], 0;
    if length % 2 == 1 {
      var first := a.Nth(pos);
      data := [Pack(0, first)];
      pos := 1;
    }
    data := PushPairs(a, data, pos, length, n);
    assert a.View()[..length][pos..] == a.View()[pos..length];
    assert a.View()[..length][0..] == a.View()[..length];
    r := Path(data, if length % 2 == 1 then 1 else 0);
  }

  method CommonPrefix(a: Path, b: Path) returns (r: Path)
    requires a.Valid() && b.Valid()
    ensures r == Repacked(a.View()[..CommonLen(a.View(), b.View())])
  {
    var least := Min(a.Size(), b.Size());
    var common := 0;
    while common < least
      invariant common <= least
      invariant a.View()[..common] == b.View()[..common]
    {
      var x := a.Nth(common);
      var y := b.Nth(common);
      if x != y {
        break;
      }
      assert a.View()[..common + 1] == a.View()[..common] + [x];
      assert b.View()[..common + 1] == b.View()[..common] + [y];
      common := common + 1;
    }
    CommonLenIs(a.View(), b.View(), common);
    r := ConstructFromPrefix(a, common);
  }

  /** The lambda `at_combined` of `operator+`. */
  method AtCombined(a: Path, b: Path, n: nat) returns (x: nibble)
    requires a.Valid() && b.Valid() && n < a.Size() + b.Size()
    ensures x == (a.View() + b.View())[n]
  {
    if n < a.Size() {
      x := a.Nth(n);
    } else {
      x := b.Nth(n - a.Size());
    }
  }

  /** `operator+` */
  method Append(a: Path, b: Path) returns (r: Path)
    requires a.Valid() && b.Valid()
    ensures r == Repacked(a.View() + b.View())
  {
    ghost var ns := a.View() + b.View();
    var finalSize := a.Size() + b.Size();
    ghost var odd, n := Halve(finalSize);
    var data: Bytes, pos := [], 0;
    if finalSize % 2 == 1 {
      var first := AtCombined(a, b, 0);
      data := [Pack(0, first)];
      pos := 1;
    }
    data := PushCombined(a, b, data, pos, n);
    assert ns[0..] == ns;
    r := Path(data, if finalSize % 2 == 1 then 1 else 0);
  }

  method PushCombined(a: Path, b: Path, head: Bytes, from: nat, ghost n: nat) returns (data: Bytes)
    requires a.Valid() && b.Valid() && a.Size() + b.Size() == from + 2 * n
    ensures data == head + Pairs((a.View() + b.View())[from..])
  {
    ghost var ns := a.View() + b.View();
    data := head;
    var i := from;
    ghost var k := 0;
    while i < a.Size() + b.Size()
      invariant i == from + 2 * k && k <= n
      invariant data == head + Pairs(ns[from..i])
    {
      var high := AtCombined(a, b, i);
      var low := AtCombined(a, b, i + 1);
      ghost var done := Pairs(ns[from..i]);
      PairsStep(ns, from, i);
      assert head + done + [Pack(high, low)] == head + (done + [Pack(high, low)]);
      data := data + [Pack(high, low)];
      i, k := i + 2, k + 1;
    }
    assert ns[from..i] == ns[from..];
  }

  // ---- serialization -------------------------------------------------------

  /** The high nibble of the first byte of an odd path: `kOddFlag` is 0x10. */
  const ODD_FLAG: nibble := 1

  /** What `serialize` writes for a path denoting `ns`. */
  function PathBytes(ns: Nibbles): (data: Bytes)
    ensures |data| == 1 + |ns| / 2
  {
    if |ns| % 2 == 1 then [Pack(ODD_FLAG, ns[0])] + Pairs(ns[1..]) else [0] + Pairs(ns)
  }

  method Serialize(a: Path) returns (out: Bytes)
    requires a.Valid()
    ensures out == PathBytes(a.View())
  {
    ghost var odd, n := Halve(a.Size());
    var prefix: byte, pos := 0, 0;
    if a.Size() % 2 == 1 {
      var first := a.At(0);
      prefix := Pack(ODD_FLAG, first.value);
      pos := 1;
    }
    out := PushPairs(a, [prefix], pos, a.Size(), n);
    assert a.View()[pos..a.Size()] == a.View()[pos..];
    assert a.View()[0..] == a.View();
  }

  /** `None` where the source would read the first byte of an empty range, or get a negative size. */
  function Deserialize(data: Bytes): (r: Option<Path>)
    ensures r.Some? ==> r.value.Valid()
  {
    if data == [] then None
    else Some(Path(data, if High(data[0]) % 2 == 1 then 1 else 2))
  }

  lemma DeserializeSerialize(ns: Nibbles)
    ensures Deserialize(PathBytes(ns)).Some?
    ensures Deserialize(PathBytes(ns)).value.View() == ns
  {
    var odd, n := Halve(|ns|);
    if odd == 1 {
      DeserializeOdd(ns, n);
    } else {
      DeserializeEven(ns, n);
    }
  }

  lemma DeserializeOdd(ns: Nibbles, n: nat)
    requires |ns| == 2 * n + 1
    ensures Expand([Pack(ODD_FLAG, ns[0])] + Pairs(ns[1..]))[1..] == ns
    ensures High(Pack(ODD_FLAG, ns[0])) == 1
  {
    ExpandPairs(ns[1..], n);
    HalvesOfPack(ODD_FLAG, ns[0]);
    ExpandCons(Pack(ODD_FLAG, ns[0]), Pairs(ns[1..]));
  }

  lemma DeserializeEven(ns: Nibbles, n: nat)
    requires |ns| == 2 * n
    ensures Expand([0] + Pairs(ns))[2..] == ns
  {
    ExpandPairs(ns, n);
    ExpandCons(0, Pairs(ns));
  }

  // ---- the path held by reference ------------------------------------------

  /** A path passed by reference: `Consume` moves the caller's path. */
  class PathCursor {
    var path: Path

    ghost predicate Valid()
      reads this
    {
      path.Valid()
    }

    function View(): Nibbles
      requires Valid()
      reads this
    {
      path.View()
    }

    constructor (path: Path)
      ensures this.path == path
    {
      this.path := path;
    }

    /** Nothing checks the amount: more than the size leaves a path that denotes nothing. */
    method Consume(amount: nat)
      modifies this
      ensures path == old(path).(offset := old(path).offset + amount)
      ensures old(Valid()) ==> (Valid() <==> amount <= old(path).Size())
      ensures old(Valid()) && Valid() ==> View() == old(View())[amount..]
    {
      path := path.(offset := path.offset + amount);
    }
  }
}
