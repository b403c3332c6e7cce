/** The chunked bodies that `read_content_chunked` accepts, from any sender (httplib.h:4121-4193). */
module ChunkedBodies {
  import opened ByteStrings
  import opened Streams
  import opened ChunkedTransfer

  // ---- size lines ------------------------------------------------------------------------

  const LOWER := "0123456789abcdef"
  const UPPER := "0123456789ABCDEF"

  /** The hexadecimal digits, in either case; `from_i_to_hex` writes the lower one. */
  lemma DigitExactly(c: byte, d: nibble)
    ensures DigitValue(c) == Some(d) <==> c == LOWER[d] as int || c == UPPER[d] as int
    ensures HexDigit(d) == LOWER[d] as int
  {
  }

  predicate AllDigits(s: Bytes) { forall i :: 0 <= i < |s| ==> DigitValue(s[i]).Some? }

  function Pow16(k: nat): (n: nat) { if k == 0 then 1 else 16 * Pow16(k - 1) }

  lemma OneDigitMore(s: Bytes, c: byte)
    requires AllDigits(s) && DigitValue(c).Some?
    ensures HexValue(s + [c]) == 16 * HexValue(s) + DigitValue(c).value
  {
    assert (s + [c])[..|s|] == s;
  }

  lemma Shifted(a: nat, p: nat, b: nat, d: nat)
    ensures 16 * (a * p + b) + d == a * (16 * p) + (16 * b + d)
  {
  }

  /** The value of digits is their place value. */
  lemma {:induction false} HexValueSplit(a: Bytes, b: Bytes)
    requires AllDigits(a) && AllDigits(b)
    ensures HexValue(a + b) == HexValue(a) * Pow16(|b|) + HexValue(b)
  {
    if b == [] {
      assert a + b == a;
    } else {
      var front, last := b[..|b| - 1], b[|b| - 1];
      HexValueSplit(a, front);
      OneDigitMore(front, last);
      OneDigitMore(a + front, last);
      assert front + [last] == b && a + front + [last] == a + b;
      Shifted(HexValue(a), Pow16(|front|), HexValue(front), DigitValue(last).value);
    }
  }

  lemma {:induction false} SpacesSkipped(spaces: Bytes, rest: Bytes)
    requires (forall i :: 0 <= i < |spaces| ==> spaces[i] in [9, 10, 11, 12, 13, 32])
    requires rest != [] ==> rest[0] !in [9, 10, 11, 12, 13, 32]
    ensures SkipSpace(spaces + rest) == rest
  {
    if spaces == [] {
      assert spaces + rest == rest;
    } else {
      SpacesSkipped(spaces[1..], rest);
      assert (spaces + rest)[1..] == spaces[1..] + rest;
    }
  }

  lemma {:induction false} DigitsMeasured(digits: Bytes, rest: Bytes)
    requires AllDigits(digits) && (rest != [] ==> DigitValue(rest[0]) == None)
    ensures DigitsLen(digits + rest) == |digits| && (digits + rest)[..|digits|] == digits
  {
    var s, k := digits + rest, DigitsLen(digits + rest);
    assert forall i :: 0 <= i < |digits| ==> s[i] == digits[i];
    assert rest != [] ==> s[|digits|] == rest[0];
  }

  /** The parts of a number in base 16 as `strtoul` takes it (ISO C, section 7.22.1.4). */
  datatype Numeral = Numeral(spaces: Bytes, sign: Bytes, prefix: Bytes, digits: Bytes)
  {
    function Text(): (s: Bytes) { spaces + (sign + (prefix + digits)) }

    /** `rest` does not belong to the number. */
    predicate EndsBefore(rest: Bytes)
    {
      && (forall i :: 0 <= i < |spaces| ==> spaces[i] in [9, 10, 11, 12, 13, 32])
      && sign in [[], [43], [45]] && prefix in [[], [48, 120], [48, 88]]
      && digits != [] && AllDigits(digits) && (rest != [] ==> DigitValue(rest[0]) == None)
      && (prefix == [] && digits == [48] && |rest| >= 2 && rest[0] in [88, 120] ==> DigitValue(rest[1]) == None)
    }
  }

  lemma NoPrefix(digits: Bytes, rest: Bytes)
    requires digits != [] && AllDigits(digits) && (rest != [] ==> DigitValue(rest[0]) == None)
    requires digits == [48] && |rest| >= 2 && (rest[0] == 88 || rest[0] == 120) ==> DigitValue(rest[1]) == None
    ensures SkipPrefix(digits + rest) == digits + rest
  {
    var s := digits + rest;
    if |digits| >= 2 {
      assert s[1] == digits[1];
    } else if |rest| >= 2 {
      assert s[1] == rest[0] && s[2] == rest[1] && (s[0] == 48 ==> digits == [48]);
    }
  }

  lemma AfterPrefix(prefix: Bytes, t: Bytes)
    requires (prefix == [48, 120] || prefix == [48, 88]) && t != [] && DigitValue(t[0]).Some?
    ensures SkipPrefix(prefix + t) == t
  {
    var s := prefix + t;
    assert s[0] == 48 && s[1] == prefix[1] && s[2] == t[0] && s[2..] == t;
  }

  lemma PrefixSkipped(n: Numeral, rest: Bytes)
    requires n.EndsBefore(rest)
    ensures SkipPrefix(n.prefix + (n.digits + rest)) == n.digits + rest
  {
    if n.prefix == [] {
      NoPrefix(n.digits, rest);
      assert n.prefix + (n.digits + rest) == n.digits + rest;
    } else {
      AfterPrefix(n.prefix, n.digits + rest);
    }
  }

  lemma SignSkipped(n: Numeral, rest: Bytes)
    requires n.EndsBefore(rest)
    ensures var s := n.sign + (n.prefix + (n.digits + rest));
      && SkipSign(s) == n.prefix + (n.digits + rest) && s[0] !in [9, 10, 11, 12, 13, 32]
      && (s[0] == 45 <==> n.sign == [45])
  {
    var t := n.prefix + (n.digits + rest);
    assert t[0] == if n.prefix == [] then n.digits[0] else 48;
    SignApart(n.sign, t);
  }

  lemma SignApart(sign: Bytes, t: Bytes)
    requires (sign == [] || sign == [43] || sign == [45]) && t != [] && DigitValue(t[0]).Some?
    ensures
      var s := sign + t;
      SkipSign(s) == t && s[0] !in [9, 10, 11, 12, 13, 32] && (s[0] == 45 <==> sign == [45])
  {
    if sign == [] {
      assert sign + t == t;
    } else {
      assert (sign + t)[1..] == t;
    }
  }

  lemma TextApart(a: Bytes, b: Bytes, c: Bytes, d: Bytes, rest: Bytes)
    ensures a + (b + (c + d)) + rest == a + (b + (c + (d + rest)))
  {
    Regroup(a, b + (c + d), rest);
    Regroup(b, c + d, rest);
    Regroup(c, d, rest);
  }

  lemma StrtoulOf(s: Bytes, signed: Bytes, digits: Bytes, rest: Bytes)
    requires SkipSpace(s) == signed && signed != [] && SkipPrefix(SkipSign(signed)) == digits + rest
    requires digits != [] && AllDigits(digits) && (rest != [] ==> DigitValue(rest[0]) == None)
    ensures
      var v := HexValue(digits);
      Strtoul(s) == Some(
        if v > 0xFFFF_FFFF_FFFF_FFFF then 0xFFFF_FFFF_FFFF_FFFF
        else if signed[0] == 45 && v > 0 then 0x1_0000_0000_0000_0000 - v
        else v)
  {
    DigitsMeasured(digits, rest);
  }

  /** `strtoul` on any number it takes, whatever follows: the place value of the digits of either case, capped at
      the largest `unsigned long`, and negated in that type after a minus sign. */
  lemma StrtoulReads(n: Numeral, rest: Bytes)
    requires n.EndsBefore(rest)
    ensures
      var v := HexValue(n.digits);
      Strtoul(n.Text() + rest) == Some(
        if v > 0xFFFF_FFFF_FFFF_FFFF then 0xFFFF_FFFF_FFFF_FFFF
        else if n.sign == [45] && v > 0 then 0x1_0000_0000_0000_0000 - v
        else v)
  {
    var s := n.sign + (n.prefix + (n.digits + rest));
    TextApart(n.spaces, n.sign, n.prefix, n.digits, rest);
    SignSkipped(n, rest);
    SpacesSkipped(n.spaces, s);
    PrefixSkipped(n, rest);
    StrtoulOf(n.Text() + rest, s, n.digits, rest);
  }

  /** Where no digit follows the spaces and the sign there is no number. */
  lemma StrtoulRefuses(spaces: Bytes, sign: Bytes, rest: Bytes)
    requires forall i :: 0 <= i < |spaces| ==> spaces[i] in [9, 10, 11, 12, 13, 32]
    requires sign in [[], [43], [45]] && (rest != [] ==> DigitValue(rest[0]) == None)
    requires sign == [] && rest != [] ==> rest[0] !in [9, 10, 11, 12, 13, 32, 43, 45]
    ensures Strtoul(spaces + (sign + rest)) == None
  {
    var s := sign + rest;
    SpacesSkipped(spaces, s);
    assert SkipSign(s) == rest by {
      if sign == [] { assert s == rest; } else { assert s[1..] == rest; }
    }
  }

  /** A plain size: digits up to a line end, a chunk extension or whatever else is no digit and no `x`. */
  lemma PlainSize(digits: Bytes, rest: Bytes)
    requires digits != [] && AllDigits(digits) && EndsDigits(rest)
    ensures Strtoul(digits + rest) ==
            Some(if HexValue(digits) > 0xFFFF_FFFF_FFFF_FFFF then 0xFFFF_FFFF_FFFF_FFFF else HexValue(digits))
  {
    var n := Numeral([], [], [], digits);
    StrtoulReads(n, rest);
    Nothing(digits);
  }

  lemma Nothing(s: Bytes)
    ensures Numeral([], [], [], s).Text() == s
  {
    var none: Bytes := [];
    assert none + s == s;
  }

  lemma ShortValues(c: byte, d: byte)
    requires DigitValue(c).Some? && DigitValue(d).Some?
    ensures HexValue([c]) == DigitValue(c).value && HexValue([c, d]) == 16 * DigitValue(c).value + DigitValue(d).value
  {
    assert |[c][..0]| == 0;
    assert [c, d][..1] == [c];
  }

  /** Sizes as other senders write them: `A` and `1F`, before a line end or a chunk extension. */
  lemma UpperCaseSizes(rest: Bytes)
    requires EndsDigits(rest)
    ensures Strtoul([65] + rest) == Some(10) && Strtoul([49, 70] + rest) == Some(31)
  {
    ShortValues(65, 65);
    ShortValues(49, 70);
    PlainSize([65], rest);
    PlainSize([49, 70], rest);
  }

  /** The character is the lower-case one for its value. */
  predicate IsLower(c: byte) { DigitValue(c).Some? && c == LOWER[DigitValue(c).value] as int }

  lemma LastDigitIsLower(n: nat)
    ensures IsLower(HexDigit(n % 16)) && (HexDigit(n % 16) == 48 <==> n % 16 == 0)
  {
    DigitExactly(HexDigit(n % 16), n % 16);
  }

  /** The sizes that are written: lower-case digits, and no zero in front. */
  lemma {:induction false} HexIsShort(n: nat)
    ensures forall i :: 0 <= i < |Hex(n)| ==> IsLower(Hex(n)[i])
    ensures Hex(n)[0] == 48 <==> n == 0
  {
    LastDigitIsLower(n);
    if n >= 16 {
      HexIsShort(n / 16);
    } else {
      assert Hex(n) == [HexDigit(n % 16)];
    }
  }

  // ---- whole bodies --------------------------------------------------------------------------

  /** A chunk as any sender may write it: the size line, with or without an extension, and the data. */
  datatype Chunk = Chunk(size: Bytes, data: Bytes)

  /** The chunks, the size line of the last chunk, and the trailer fields. */
  datatype Body = Body(chunks: seq<Chunk>, last: Bytes, fields: seq<Bytes>)

  predicate IsChunk(c: Chunk)
  {
    IsLine(c.size) && c.data != [] && Strtoul(c.size) == Some(|c.data|) && |c.data| < 0xFFFF_FFFF_FFFF_FFFF
  }

  predicate IsField(line: Bytes) { IsLine(line) && line != [13, 10] && |line| <= 8192 }

  predicate IsBody(b: Body)
  {
    && (forall i :: 0 <= i < |b.chunks| ==> IsChunk(b.chunks[i]))
    && IsLine(b.last) && Strtoul(b.last) == Some(0)
    && forall i :: 0 <= i < |b.fields| ==> IsField(b.fields[i])
  }

  function ChunksText(chunks: seq<Chunk>): (s: Bytes)
  {
    if chunks == [] then [] else chunks[0].size + (chunks[0].data + ([13, 10] + ChunksText(chunks[1..])))
  }

  function Data(chunks: seq<Chunk>): (s: Bytes)
  {
    if chunks == [] then [] else chunks[0].data + Data(chunks[1..])
  }

  /** The trailer and what follows the message. */
  function TrailerText(fields: seq<Bytes>, rest: Bytes): (s: Bytes)
  {
    if fields == [] then [13, 10] + rest else fields[0] + TrailerText(fields[1..], rest)
  }

  lemma LineComes(line: Bytes, rest: Bytes, closes: bool)
    requires IsLine(line)
    ensures NextLine(line + rest, closes) == Some((line, rest))
  {
    NextLineExactly(line + rest, closes, line, rest);
  }

  lemma BlankIsLine()
    ensures IsLine([13, 10])
  {
    assert [13, 10][..1] == [13];
  }

  /** What becomes of the bytes after the size line of the last chunk. */
  function AtTrailer(s: Bytes, closes: bool): (r: Reception)
  {
    match NextLine(s, closes)
    case Some((line, rest)) => Trailer(line, rest, closes)
    case None => Fail([])
  }

  lemma {:induction false} TrailerIsRead(fields: seq<Bytes>, rest: Bytes, closes: bool)
    requires forall i :: 0 <= i < |fields| ==> IsField(fields[i])
    ensures AtTrailer(TrailerText(fields, rest), closes) == Reception(true, [], rest)
  {
    BlankIsLine();
    if fields == [] {
      LineComes([13, 10], rest, closes);
    } else {
      TrailerIsRead(fields[1..], rest, closes);
      LineComes(fields[0], TrailerText(fields[1..], rest), closes);
    }
  }

  lemma FromSizeLine(size: Bytes, s: Bytes, closes: bool)
    requires IsLine(size)
    ensures Received(size + s, closes) == Chunks(size, s, closes)
  {
    LineComes(size, s, closes);
  }

  lemma ChunkIsRead(c: Chunk, s: Bytes, closes: bool)
    requires IsChunk(c)
    ensures Received(c.size + (c.data + ([13, 10] + s)), closes) == Prepend(c.data, Received(s, closes))
  {
    FromSizeLine(c.size, c.data + ([13, 10] + s), closes);
    ChunkAndRest(c.size, c.data, s, closes);
  }

  /** Whatever follows any chunks is read as if it stood alone. */
  lemma {:induction false} ChunksAreRead(chunks: seq<Chunk>, s: Bytes, closes: bool)
    requires forall i :: 0 <= i < |chunks| ==> IsChunk(chunks[i])
    ensures Received(ChunksText(chunks) + s, closes) == Prepend(Data(chunks), Received(s, closes))
  {
    if chunks == [] {
      assert ChunksText(chunks) + s == s;
    } else {
      var c, more := chunks[0], ChunksText(chunks[1..]);
      ChunksAreRead(chunks[1..], s, closes);
      TextApart(c.size, c.data, [13, 10], more, s);
      ChunkIsRead(c, more + s, closes);
      PrependTwice(c.data, Data(chunks[1..]), Received(s, closes));
    }
  }

  lemma LastChunkIsRead(last: Bytes, fields: seq<Bytes>, rest: Bytes, closes: bool)
    requires IsLine(last) && Strtoul(last) == Some(0) && forall i :: 0 <= i < |fields| ==> IsField(fields[i])
    ensures Received(last + TrailerText(fields, rest), closes) == Reception(true, [], rest)
  {
    var s := TrailerText(fields, rest);
    FromSizeLine(last, s, closes);
    TrailerIsLeft(last, s, closes);
    TrailerIsRead(fields, rest, closes);
  }

  function BodyText(b: Body, rest: Bytes): (s: Bytes)
  {
    ChunksText(b.chunks) + (b.last + TrailerText(b.fields, rest))
  }

  /** Every body, from any sender, is received in full, and what follows it stays on the connection. */
  lemma BodyIsRead(b: Body, rest: Bytes, closes: bool)
    requires IsBody(b)
    ensures Received(BodyText(b, rest), closes) == Reception(true, Data(b.chunks), rest)
  {
    ChunksAreRead(b.chunks, b.last + TrailerText(b.fields, rest), closes);
    LastChunkIsRead(b.last, b.fields, rest, closes);
    assert Data(b.chunks) + [] == Data(b.chunks);
  }

  lemma LineCame(s: Bytes, closes: bool)
    requires NextLine(s, closes).Some?
    ensures
      var (line, rest) := NextLine(s, closes).value;
      s == line + rest && (IsLine(line) || rest == [])
  {
    var (line, rest) := NextLine(s, closes).value;
    NextLineExactly(s, closes, line, rest);
  }

  lemma {:induction false} FieldsOf(s: Bytes, closes: bool) returns (fields: seq<Bytes>)
    requires AtTrailer(s, closes).ok
    ensures forall i :: 0 <= i < |fields| ==> IsField(fields[i])
    ensures s == TrailerText(fields, AtTrailer(s, closes).rest)
    decreases |s|
  {
    var (line, rest) := NextLine(s, closes).value;
    LineCame(s, closes);
    if line == [13, 10] {
      fields := [];
    } else {
      assert AtTrailer(s, closes) == AtTrailer(rest, closes);
      var more := FieldsOf(rest, closes);
      fields := [line] + more;
      assert fields[1..] == more;
    }
  }

  lemma CrlfCame(s: Bytes, closes: bool)
    requires AfterChunk(s, closes).Some?
    ensures
      var (line, rest) := AfterChunk(s, closes).value;
      s == [13, 10] + (line + rest) && NextLine(line + rest, closes) == Some((line, rest))
  {
    var (end, more) := NextLine(s, closes).value;
    LineCame(s, closes);
    LineCame(more, closes);
  }

  lemma NextIsLine(line: Bytes, rest: Bytes, closes: bool)
    requires NextLine(line + rest, closes) == Some((line, rest)) && Chunks(line, rest, closes).ok
    ensures IsLine(line)
  {
    LineCame(line + rest, closes);
    if rest == [] {
      assert NextLine(rest, closes) == None;
    }
  }

  lemma ChunkIsThere(line: Bytes, s: Bytes, closes: bool)
    requires Chunks(line, s, closes).ok && Strtoul(line) != Some(0)
    ensures Strtoul(line).Some? && 0 < Strtoul(line).value < ULONG_MAX && Strtoul(line).value <= |s|
    ensures AfterChunk(s[Strtoul(line).value..], closes).Some?
  {
  }

  lemma ChunkThen(line: Bytes, data: Bytes, tail: Bytes, closes: bool) returns (next: Bytes, rest: Bytes)
    requires data != [] && Strtoul(line) == Some(|data|) && |data| < ULONG_MAX && AfterChunk(tail, closes).Some?
    requires Chunks(line, data + tail, closes).ok
    ensures tail == [13, 10] + (next + rest) && IsLine(next)
    ensures Chunks(line, data + tail, closes) == Prepend(data, Chunks(next, rest, closes))
  {
    OneChunk(line, data, tail, closes);
    var after := AfterChunk(tail, closes).value;
    next, rest := after.0, after.1;
    CrlfCame(tail, closes);
    NextIsLine(next, rest, closes);
  }

  lemma ChunkCame(line: Bytes, s: Bytes, closes: bool) returns (c: Chunk, next: Bytes, rest: Bytes)
    requires Chunks(line, s, closes).ok && IsLine(line) && Strtoul(line) != Some(0)
    ensures IsChunk(c) && c.size == line && s == c.data + ([13, 10] + (next + rest))
    ensures IsLine(next) && Chunks(line, s, closes) == Prepend(c.data, Chunks(next, rest, closes))
  {
    ChunkIsThere(line, s, closes);
    var data, tail := s[..Strtoul(line).value], s[Strtoul(line).value..];
    assert s == data + tail;
    c := Chunk(line, data);
    next, rest := ChunkThen(line, data, tail, closes);
  }

  lemma OneMoreInFront(c: Chunk, more: Body, b: Body, rest: Bytes)
    requires IsChunk(c) && IsBody(more) && b == more.(chunks := [c] + more.chunks)
    ensures IsBody(b) && Data(b.chunks) == c.data + Data(more.chunks)
    ensures BodyText(b, rest) == c.size + (c.data + ([13, 10] + BodyText(more, rest)))
  {
    assert b.chunks[1..] == more.chunks;
    TextApart(c.size, c.data, [13, 10], ChunksText(more.chunks), more.last + TrailerText(more.fields, rest));
  }

  /** A body that is received in full is one: size lines of the data that follow them, a last chunk, and trailer
      lines of at most 8192 bytes. */
  lemma {:induction false} BodyOf(line: Bytes, s: Bytes, closes: bool) returns (b: Body)
    requires Chunks(line, s, closes).ok && IsLine(line)
    ensures IsBody(b) && Data(b.chunks) == Chunks(line, s, closes).content
    ensures line + s == BodyText(b, Chunks(line, s, closes).rest)
    decreases |s|
  {
    if Strtoul(line) == Some(0) {
      TrailerIsLeft(line, s, closes);
      var fields := FieldsOf(s, closes);
      b := Body([], line, fields);
      assert BodyText(b, Chunks(line, s, closes).rest) == line + s;
    } else {
      var c, next, rest := ChunkCame(line, s, closes);
      var more := BodyOf(next, rest, closes);
      b := more.(chunks := [c] + more.chunks);
      OneMoreInFront(c, more, b, Chunks(line, s, closes).rest);
    }
  }

  /** `read_content_chunked` succeeds on exactly the chunked bodies, and hands out exactly their data. */
  lemma ReceivedExactly(s: Bytes, closes: bool, content: Bytes, rest: Bytes)
    ensures Received(s, closes) == Reception(true, content, rest)
       <==> exists b :: IsBody(b) && s == BodyText(b, rest) && content == Data(b.chunks)
  {
    if Received(s, closes) == Reception(true, content, rest) {
      var (line, more) := NextLine(s, closes).value;
      LineCame(s, closes);
      NextIsLine(line, more, closes);
      var b := BodyOf(line, more, closes);
    }
    forall b | IsBody(b) && s == BodyText(b, rest) && content == Data(b.chunks)
      ensures Received(s, closes) == Reception(true, content, rest)
    {
      BodyIsRead(b, rest, closes);
    }
  }

  // ---- bodies that are refused -----------------------------------------------------------------

  /** A size line without a number, or with one that `unsigned long` cannot hold, ends the body. */
  lemma NoSizeIsRefused(size: Bytes, s: Bytes, closes: bool)
    requires IsLine(size) && Strtoul(size) in [None, Some(0xFFFF_FFFF_FFFF_FFFF)]
    ensures Received(size + s, closes) == Fail([])
  {
    FromSizeLine(size, s, closes);
  }

  /** A chunk that is cut short is handed out as far as it goes, and the body is incomplete. */
  lemma CutChunkIsRefused(size: Bytes, s: Bytes, closes: bool)
    requires IsLine(size) && Strtoul(size).Some? && |s| < Strtoul(size).value < 0xFFFF_FFFF_FFFF_FFFF
    ensures Received(size + s, closes) == Fail(s)
  {
    FromSizeLine(size, s, closes);
  }

  /** The data of a chunk that no line end follows is handed out, and the body is malformed. */
  lemma OpenChunkIsRefused(c: Chunk, s: Bytes, closes: bool)
    requires IsChunk(c) && !([13, 10] <= s)
    ensures Received(c.size + (c.data + s), closes) == Fail(c.data)
  {
    FromSizeLine(c.size, c.data + s, closes);
    OneChunk(c.size, c.data, s, closes);
    if NextLine(s, closes).Some? { LineCame(s, closes); }
  }

  /** A trailer line of more than 8192 bytes ends the body. */
  lemma {:induction false} LongFieldIsRefused(fields: seq<Bytes>, line: Bytes, rest: Bytes, closes: bool)
    requires (forall i :: 0 <= i < |fields| ==> IsField(fields[i])) && IsLine(line) && |line| > 8192
    ensures AtTrailer(Concat(fields) + (line + rest), closes) == Fail([])
  {
    if fields == [] {
      assert Concat(fields) + (line + rest) == line + rest;
      LineComes(line, rest, closes);
    } else {
      LongFieldIsRefused(fields[1..], line, rest, closes);
      Regroup(fields[0], Concat(fields[1..]), line + rest);
      LineComes(fields[0], Concat(fields[1..]) + (line + rest), closes);
    }
  }

  // ---- the bytes on the wire --------------------------------------------------------------------

  lemma HexGrows(n: nat, d: nibble)
    ensures Hex(16 * n + d) == (if n == 0 then [] else Hex(n)) + [HexDigit(d)]
  {
    assert (16 * n + d) / 16 == n && (16 * n + d) % 16 == d;
  }

  lemma {:induction false} ShortDigitsAreHex(size: Bytes)
    requires size != [] && AllDigits(size) && (forall i :: 0 <= i < |size| ==> IsLower(size[i]))
    requires size[0] != 48 || |size| == 1
    ensures Hex(HexValue(size)) == size
  {
    var front, last := size[..|size| - 1], size[|size| - 1];
    if front != [] {
      ShortDigitsAreHex(front);
      NotZero(front);
    }
    LastApart([], size);
    OneDigitAppended(front, last);
  }

  lemma OneDigitAppended(front: Bytes, last: byte)
    requires AllDigits(front) && IsLower(last) && (front != [] ==> Hex(HexValue(front)) == front && HexValue(front) > 0)
    ensures Hex(HexValue(front + [last])) == front + [last]
  {
    var d := DigitValue(last).value;
    DigitExactly(last, d);
    OneDigitMore(front, last);
    HexGrows(HexValue(front), d);
  }

  /** What a write puts on the wire: the one way of writing its size in lower-case digits without a zero in front,
      a line end, the payload and a line end. */
  lemma WrittenBytes(p: Bytes, size: Bytes)
    requires p != [] && size != [] && AllDigits(size) && HexValue(size) == |p|
    requires (forall i :: 0 <= i < |size| ==> IsLower(size[i])) && size[0] != 48
    ensures Emitted(Write(p)) == size + CRLF + p + CRLF && CRLF == [13, 10]
  {
    ShortDigitsAreHex(size);
  }

  lemma DoneBytes()
    ensures Emitted(Done) == [48, 13, 10, 13, 10]
  {
    var line: Bytes, end: Bytes := [48, 13, 10], [13, 10];
    assert LAST_CHUNK == line && CRLF == end;
    assert line + end == [48, 13, 10, 13, 10];
  }

  lemma {:induction false} NotZero(digits: Bytes)
    requires digits != [] && AllDigits(digits) && digits[0] != 48
    ensures HexValue(digits) > 0
  {
    var front := digits[..|digits| - 1];
    if front != [] { NotZero(front); } else { DigitExactly(digits[0], 0); }
  }

  // ---- which calls are made ----------------------------------------------------------------------

  /** The calls of the first `i` invocations. */
  function CallsOf(script: seq<Invocation>, i: nat): (calls: seq<SinkCall>)
    requires i <= |script|
  {
    if i == 0 then [] else CallsOf(script, i - 1) + script[i - 1].calls
  }

  /** No more data is wanted exactly after `done` and after an empty write. */
  lemma DataEndsExactly(calls: seq<SinkCall>, c: SinkCall)
    ensures DataAvailable([]) && (DataAvailable(calls + [c]) <==> c != Done && c != Write([]))
  {
  }

  /** The loop ends before invocation `i`. */
  predicate EndsAt(script: seq<Invocation>, i: nat, limit: Option<nat>)
  {
    i <= |script| && (!DataAvailable(CallsOf(script, i)) || limit == Some(i))
  }

  /** The loop gets as far as invocation `i`: it did not end before, and every invocation wanted to go on. */
  predicate RunsTo(script: seq<Invocation>, i: nat, limit: Option<nat>)
    requires i <= |script|
  {
    i == 0 || (RunsTo(script, i - 1, limit) && !EndsAt(script, i - 1, limit) && script[i - 1].goesOn)
  }

  lemma {:induction false} RunsToMakes(script: seq<Invocation>, i: nat, limit: Option<nat>)
    requires i <= |script| && RunsTo(script, i, limit)
    ensures Made(script, limit) == MadeFrom(script, i, CallsOf(script, i), limit)
  {
    if i > 0 { RunsToMakes(script, i - 1, limit); }
  }

  lemma {:induction false} MadeRunsTo(script: seq<Invocation>, i: nat, limit: Option<nat>) returns (k: nat)
    requires i <= |script| && RunsTo(script, i, limit) && MadeFrom(script, i, CallsOf(script, i), limit).Some?
    ensures k <= |script| && RunsTo(script, k, limit) && EndsAt(script, k, limit)
    ensures MadeFrom(script, i, CallsOf(script, i), limit) == Some(CallsOf(script, k))
    decreases |script| - i
  {
    k := i;
    if !EndsAt(script, i, limit) { k := MadeRunsTo(script, i + 1, limit); }
  }

  ghost predicate RunsOut(script: seq<Invocation>, k: nat, limit: Option<nat>)
  {
    k <= |script| && RunsTo(script, k, limit) && EndsAt(script, k, limit)
  }

  /** What is reported as sent are the calls up to the first end, if every invocation before wants to go on. */
  lemma MadeExactly(script: seq<Invocation>, limit: Option<nat>, calls: seq<SinkCall>)
    ensures Made(script, limit) == Some(calls)
       <==> exists k :: RunsOut(script, k, limit) && calls == CallsOf(script, k)
  {
    if Made(script, limit).Some? { var k := MadeRunsTo(script, 0, limit); }
    forall k | RunsOut(script, k, limit) ensures Made(script, limit) == Some(CallsOf(script, k)) {
      RunsToMakes(script, k, limit);
    }
  }
}
