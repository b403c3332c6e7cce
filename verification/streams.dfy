/** The socket, the buffered stream over it and the line reader (httplib.h:2294-2310, 2708-2772,
    3053-3080, 4297-4307, 5777-5826). */
module Streams {
  import opened ByteStrings

  const LF: byte := 10
  const READ_BUFF_SIZE := 4096
  const SSIZE_MAX := 0x7FFF_FFFF_FFFF_FFFF

  /** `incoming` is what is still to arrive before the peer closes the connection or a wait times out, and
      `closes` says which of the two happens then. The system hands bytes over in fragments of any size.
      Sending may fail at any time unless the connection is `healthy`. */
  class Socket {
    var incoming: Bytes
    var outgoing: Bytes
    const closes: bool
    const healthy: bool

    constructor (incoming: Bytes, closes: bool, healthy: bool)
      ensures this.incoming == incoming && this.closes == closes && this.healthy == healthy && outgoing == []
    {
      this.incoming, this.outgoing, this.closes, this.healthy := incoming, [], closes, healthy;
    }

    /** `recv` */
    method Recv(size: nat) returns (n: int, data: Bytes)
      requires size > 0
      modifies this`incoming
      ensures old(incoming) == [] ==> n == (if closes then 0 else -1) && data == [] == incoming
      ensures old(incoming) != [] ==> 1 <= n <= size && |data| == n && old(incoming) == data + incoming
    {
      if incoming == [] {
        n, data := if closes then 0 else -1, [];
      } else {
        n :| 1 <= n <= size && n <= |incoming|;
        data, incoming := incoming[..n], incoming[n..];
      }
    }

    /** `send`, which may take a part of the data only. */
    method Send(data: Bytes) returns (n: int)
      requires data != []
      modifies this`outgoing
      ensures (n == -1 && !healthy) || 1 <= n <= |data|
      ensures outgoing == old(outgoing) + if n > 0 then data[..n] else []
    {
      var fails: bool := *;
      if fails && !healthy {
        n := -1;
      } else {
        n :| 1 <= n <= |data|;
        outgoing := outgoing + data[..n];
      }
    }
  }

  class SocketStream {
    const sock: Socket
    const readBuff: array<byte>
    var readBuffOff: nat
    var readBuffContentSize: nat

    ghost predicate Valid()
      reads this
    {
      readBuffOff <= readBuffContentSize <= readBuff.Length == READ_BUFF_SIZE
    }

    /** What the reader has not seen yet. */
    ghost function Pending(): (s: Bytes)
      requires Valid()
      reads this, readBuff, sock
    {
      readBuff[readBuffOff..readBuffContentSize] + sock.incoming
    }

    constructor (sock: Socket)
      ensures Valid() && this.sock == sock && Pending() == sock.incoming && fresh(readBuff)
    {
      this.sock, readBuff, readBuffOff, readBuffContentSize := sock, new byte[READ_BUFF_SIZE](i => 0), 0, 0;
    }

    /** What a read of `size` bytes may do to the bytes that are pending. */
    static ghost predicate Took(before: Bytes, after: Bytes, got: Bytes, n: int, size: nat, closes: bool)
    {
      if n <= 0 then
        && before == after && got == []
        && (size > 0 ==> before == [] && n == if closes then 0 else -1)
        && (n < 0 ==> before == [])
      else n <= size && |got| == n && before == got + after
    }

    /** `memcpy` */
    static method Copy(dst: array<byte>, src: array<byte>, from: nat, n: nat)
      requires n <= dst.Length && from + n <= src.Length && dst != src
      modifies dst
      ensures dst[..n] == src[from..from + n]
    {
      for i := 0 to n
        invariant dst[..i] == src[from..from + i]
      {
        dst[i] := src[from + i];
      }
    }

    method Read(ptr: array<byte>, requested: nat) returns (n: int)
      requires Valid() && requested <= ptr.Length && ptr != readBuff
      modifies this, readBuff, sock`incoming, ptr
      ensures Valid() && n <= ptr.Length
      ensures Took(old(Pending()), Pending(), if n > 0 then ptr[..n] else [], n, requested, sock.closes)
    {
      var size := Min(requested, SSIZE_MAX);
      if readBuffOff < readBuffContentSize {
        var remainingSize := readBuffContentSize - readBuffOff;
        n := Min(size, remainingSize);
        Copy(ptr, readBuff, readBuffOff, n);
        readBuffOff := readBuffOff + n;
        return;
      }
      readBuffOff, readBuffContentSize := 0, 0;
      if size < READ_BUFF_SIZE {
        n := ReadThrough(ptr, size);
      } else {
        var data: Bytes;
        n, data := sock.Recv(size);
        Fill(ptr, data);
      }
    }

    /** `read(&byte, 1)` */
    method ReadByte() returns (n: int, c: byte)
      requires Valid()
      modifies this, readBuff, sock`incoming
      ensures Valid()
      ensures if old(Pending()) == [] then n == (if sock.closes then 0 else -1) && Pending() == []
              else n == 1 && old(Pending()) == [c] + Pending()
    {
      var cell := new byte[1];
      n := Read(cell, 1);
      c := cell[0];
      assert n > 0 ==> cell[..n] == [c];
    }

    /** The buffer is empty: fills it and hands out the first part. */
    method ReadThrough(ptr: array<byte>, size: nat) returns (n: int)
      requires Valid() && size <= ptr.Length && ptr != readBuff && readBuffOff == readBuffContentSize == 0
      modifies this, readBuff, sock`incoming, ptr
      ensures Valid() && n <= ptr.Length
      ensures Took(old(sock.incoming), Pending(), if n > 0 then ptr[..n] else [], n, size, sock.closes)
    {
      var got, data := sock.Recv(READ_BUFF_SIZE);
      if got <= 0 {
        return got;
      }
      Fill(readBuff, data);
      n := Min(got, size);
      Copy(ptr, readBuff, 0, n);
      if got > size {
        readBuffOff, readBuffContentSize := size, got;
      }
    }

    static method Fill(dst: array<byte>, data: Bytes)
      requires |data| <= dst.Length
      modifies dst
      ensures dst[..|data|] == data
    {
      for i := 0 to |data|
        invariant dst[..i] == data[..i]
      {
        dst[i] := data[i];
      }
    }

    method IsWritable() returns (writable: bool)
      ensures sock.healthy ==> writable
    {
      var blocked: bool := *;
      writable := sock.healthy || !blocked;
    }

    method Write(data: Bytes) returns (n: int)
      requires data != []
      modifies sock`outgoing
      ensures (n == -1 && !sock.healthy) || 1 <= n <= |data|
      ensures sock.outgoing == old(sock.outgoing) + if n > 0 then data[..n] else []
    {
      var writable := IsWritable();
      if !writable {
        return -1;
      }
      n := sock.Send(data);
    }
  }

  // ---- lines --------------------------------------------------------------------------

  /** Position of the first line feed, or the length. */
  function FirstLf(s: Bytes): (k: nat)
    ensures k <= |s| && (k < |s| ==> s[k] == LF) && forall i :: 0 <= i < k ==> s[i] != LF
  {
    if s == [] || s[0] == LF then 0 else 1 + FirstLf(s[1..])
  }

  /** The first line with its line feed, and what follows it. A last line without a line feed counts when
      the peer closes the connection. */
  function NextLine(s: Bytes, closes: bool): (r: Option<(Bytes, Bytes)>)
    ensures r.Some? ==> r.value.0 != [] && s == r.value.0 + r.value.1
  {
    var k := FirstLf(s);
    if k < |s| then Some((s[..k + 1], s[k + 1..]))
    else if s != [] && closes then Some((s, []))
    else None
  }

  /** A line with its line feed, which occurs nowhere else in it. */
  predicate IsLine(line: Bytes)
  {
    line != [] && line[|line| - 1] == 10 && 10 !in line[..|line| - 1]
  }

  /** What the next line is, both ways: a line at the front, or all that is left when the peer has closed. */
  lemma NextLineExactly(s: Bytes, closes: bool, line: Bytes, rest: Bytes)
    ensures NextLine(s, closes) == Some((line, rest))
       <==> s == line + rest && (IsLine(line) || (closes && rest == [] && line != [] && 10 !in line))
  {
    var k := FirstLf(s);
    if s == line + rest && IsLine(line) {
      var m := |line| - 1;
      assert forall i :: 0 <= i < m ==> s[i] == line[..m][i];
      assert s[m] == 10 && k == m;
    } else if s == line + rest && rest == [] {
      assert s == line;
    }
    if NextLine(s, closes) == Some((line, rest)) && k < |s| {
      assert line[..|line| - 1] == s[..k];
    }
  }

  /** One step of `getline`: `line` has been read, without a line feed, and `before` is pending. */
  lemma LineStep(line: Bytes, c: byte, before: Bytes, after: Bytes, closes: bool)
    requires LF !in line && before == [c] + after
    ensures line + before == (line + [c]) + after
    ensures c == LF ==> NextLine(line + before, closes) == Some((line + [c], after))
  {
    var s := line + before;
    assert s == (line + [c]) + after;
    if c == LF {
      assert s[|line|] == LF && forall i :: 0 <= i < |line| ==> s[i] == line[i];
      assert FirstLf(s) == |line|;
    }
  }

  lemma LastLine(line: Bytes, closes: bool)
    requires LF !in line
    ensures NextLine(line + [], closes) == if line != [] && closes then Some((line, [])) else None
  {
    assert line + [] == line;
  }

  class StreamLineReader {
    const strm: SocketStream
    const fixedBuffer: array<byte>
    var fixedBufferUsedSize: nat
    var glowableBuffer: Bytes

    ghost predicate Valid()
      reads this, fixedBuffer
    {
      && fixedBufferUsedSize < fixedBuffer.Length && 2 <= fixedBuffer.Length && fixedBuffer != strm.readBuff
      && (fixedBufferUsedSize > 0 ==> fixedBuffer[fixedBufferUsedSize] == 0)
      && (glowableBuffer != [] ==> fixedBufferUsedSize == fixedBuffer.Length - 1)
    }

    /** The characters from `ptr()` to `ptr() + size()`. */
    function Line(): (s: Bytes)
      requires Valid()
      reads this, fixedBuffer
    {
      if glowableBuffer == [] then fixedBuffer[..fixedBufferUsedSize] else glowableBuffer
    }

    constructor (strm: SocketStream, fixedBuffer: array<byte>)
      requires 2 <= fixedBuffer.Length && fixedBuffer != strm.readBuff
      ensures Valid() && this.strm == strm && this.fixedBuffer == fixedBuffer
    {
      this.strm, this.fixedBuffer, fixedBufferUsedSize, glowableBuffer := strm, fixedBuffer, 0, [];
    }

    method Append(c: byte)
      requires Valid()
      modifies this, fixedBuffer
      ensures Valid() && Line() == old(Line()) + [c]
    {
      if fixedBufferUsedSize < fixedBuffer.Length - 1 {
        fixedBuffer[fixedBufferUsedSize] := c;
        fixedBufferUsedSize := fixedBufferUsedSize + 1;
        fixedBuffer[fixedBufferUsedSize] := 0;
      } else {
        if glowableBuffer == [] {
          assert fixedBuffer[fixedBufferUsedSize] == 0;
          glowableBuffer := fixedBuffer[..fixedBufferUsedSize];
        }
        glowableBuffer := glowableBuffer + [c];
      }
    }

    method GetLine() returns (ok: bool)
      requires Valid() && strm.Valid()
      modifies this, fixedBuffer, strm, strm.readBuff, strm.sock`incoming
      ensures Valid() && strm.Valid()
      ensures
        match NextLine(old(strm.Pending()), strm.sock.closes)
        case Some((line, rest)) => ok && Line() == line && strm.Pending() == rest
        case None => !ok
    {
      fixedBufferUsedSize := 0;
      glowableBuffer := [];
      ghost var s := strm.Pending();
      var i := 0;
      while true
        invariant Valid() && strm.Valid()
        invariant |Line()| == i && s == Line() + strm.Pending() && LF !in Line()
        decreases |strm.Pending()|
      {
        ghost var line, before := Line(), strm.Pending();
        var n, c := strm.ReadByte();
        if n <= 0 {
          LastLine(line, strm.sock.closes);
          return n == 0 && i != 0;
        }
        LineStep(line, c, before, strm.Pending(), strm.sock.closes);
        Append(c);
        if c == LF {
          return true;
        }
        i := i + 1;
      }
    }
  }
}
