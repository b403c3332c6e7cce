/** Chunked transfer coding (RFC 9112, section 7.1) as written and read (httplib.h:2379-2387, 4063-4088,
    4121-4193, 4389-4478). */
module ChunkedTransfer {
  import opened ByteStrings
  import opened Receivers
  import opened Streams

  const CRLF: Bytes := [13, LF]
  const LAST_CHUNK: Bytes := [48, 13, LF]  // "0\r\n"
  const ULONG_MAX := 0xFFFF_FFFF_FFFF_FFFF
  const HEADER_MAX_LENGTH := 8192
  const RECV_BUFSIZ := 16384

  // ---- numbers in base 16 ---------------------------------------------------------------

  function HexDigit(d: nibble): (c: byte)
  {
    if d < 10 then 48 + d else 87 + d  // '0'.., 'a'..
  }

  /** The value of a hexadecimal digit of either case. */
  function DigitValue(c: byte): (r: Option<nibble>)
  {
    if 48 <= c <= 57 then Some(c - 48)
    else if 97 <= c <= 102 then Some(c - 87)
    else if 65 <= c <= 70 then Some(c - 55)
    else None
  }

  function Hex(n: nat): (s: Bytes)
    ensures s != []
  {
    (if n < 16 then [] else Hex(n / 16)) + [HexDigit(n % 16)]
  }

  lemma HexStep(n: nat, ret: Bytes)
    ensures (if n < 16 then [] else Hex(n / 16)) + ([HexDigit(n % 16)] + ret) == Hex(n) + ret
  {
  }

  method FromIToHex(size: nat) returns (ret: Bytes)
    ensures ret == Hex(size)
  {
    HexStep(size, []);
    assert Hex(size) + [] == Hex(size) && [HexDigit(size % 16)] + [] == [HexDigit(size % 16)];
    var n := size / 16;
    ret := [HexDigit(size % 16)];
    while n > 0
      invariant Hex(size) == (if n > 0 then Hex(n) else []) + ret
    {
      HexStep(n, ret);
      ret := [HexDigit(n % 16)] + ret;
      n := n / 16;
    }
    assert [] + ret == ret;
  }

  function DigitsLen(s: Bytes): (k: nat)
    ensures k <= |s| && (k < |s| ==> DigitValue(s[k]) == None)
    ensures forall i :: 0 <= i < k ==> DigitValue(s[i]).Some?
  {
    if s == [] || DigitValue(s[0]) == None then 0 else 1 + DigitsLen(s[1..])
  }

  function HexValue(s: Bytes): (n: nat)
    requires forall i :: 0 <= i < |s| ==> DigitValue(s[i]).Some?
  {
    if s == [] then 0 else 16 * HexValue(s[..|s| - 1]) + DigitValue(s[|s| - 1]).value
  }

  lemma {:induction false} HexRoundTrip(n: nat)
    ensures forall i :: 0 <= i < |Hex(n)| ==> DigitValue(Hex(n)[i]).Some?
    ensures HexValue(Hex(n)) == n
  {
    var last := [HexDigit(n % 16)];
    if n >= 16 {
      HexRoundTrip(n / 16);
      assert Hex(n)[..|Hex(n)| - 1] == Hex(n / 16);
    } else {
      assert Hex(n) == last && last[..0] == [];
      assert HexValue([]) == 0;
    }
  }

  predicate IsSpace(c: byte) { c == 32 || 9 <= c <= 13 }

  function SkipSpace(s: Bytes): (rest: Bytes)
    ensures |rest| <= |s|
  {
    if s != [] && IsSpace(s[0]) then SkipSpace(s[1..]) else s
  }

  function SkipSign(s: Bytes): (rest: Bytes)
  {
    if s != [] && (s[0] == 43 || s[0] == 45) then s[1..] else s
  }

  function SkipPrefix(s: Bytes): (rest: Bytes)
  {
    if |s| >= 3 && s[0] == 48 && (s[1] == 120 || s[1] == 88) && DigitValue(s[2]).Some? then s[2..] else s
  }

  /** `strtoul(s, &end, 16)` (ISO C, section 7.22.1.4) for a 64-bit `unsigned long`; `None` when nothing is
      converted. Values too large give `ULONG_MAX`, and a minus sign negates in the unsigned type. */
  function Strtoul(s: Bytes): (r: Option<nat>)
    ensures r.Some? ==> r.value <= ULONG_MAX
  {
    var signed := SkipSpace(s);
    var digits := SkipPrefix(SkipSign(signed));
    var k := DigitsLen(digits);
    if k == 0 then None
    else
      var v := HexValue(digits[..k]);
      if v > ULONG_MAX then Some(ULONG_MAX)
      else if signed[0] == 45 && v > 0 then Some(ULONG_MAX + 1 - v)
      else Some(v)
  }

  /** A character that ends the digits, and is no part of a prefix `0x`. */
  predicate EndsDigits(s: Bytes)
  {
    s != [] ==> DigitValue(s[0]) == None && s[0] != 120 && s[0] != 88
  }

  lemma NothingToSkip(h: Bytes, rest: Bytes)
    requires h != [] && EndsDigits(rest) && forall i :: 0 <= i < |h| ==> DigitValue(h[i]).Some?
    ensures SkipSpace(h + rest) == SkipSign(h + rest) == SkipPrefix(h + rest) == h + rest
    ensures DigitsLen(h + rest) == |h| && (h + rest)[..|h|] == h && (h + rest)[0] != 45
  {
    var s := h + rest;
    assert forall i :: 0 <= i < |h| ==> s[i] == h[i];
    assert rest != [] ==> s[|h|] == rest[0];
  }

  lemma StrtoulOfHex(n: nat, rest: Bytes)
    requires n <= ULONG_MAX && EndsDigits(rest)
    ensures Strtoul(Hex(n) + rest) == Some(n)
  {
    HexRoundTrip(n);
    NothingToSkip(Hex(n), rest);
  }

  // ---- reading ------------------------------------------------------------------------

  /** Whether the body was complete, what was handed to the receiver, and what is left for the next
      message. */
  datatype Reception = Reception(ok: bool, content: Bytes, rest: Bytes)

  function Fail(content: Bytes): Reception { Reception(false, content, []) }

  /** The lines after the last chunk. */
  function Trailer(line: Bytes, s: Bytes, closes: bool): (r: Reception)
    ensures r.content == []
    decreases |s|
  {
    if line == CRLF then Reception(true, [], s)
    else if |line| > HEADER_MAX_LENGTH then Fail([])
    else
      match NextLine(s, closes)
      case Some((next, rest)) => Trailer(next, rest, closes)
      case None => Fail([])
  }

  /** The chunks from the one whose size line is `line`. */
  function Chunks(line: Bytes, s: Bytes, closes: bool): (r: Reception)
    decreases |s|
  {
    match Strtoul(line)
    case None => Fail([])
    case Some(n) =>
      if n == ULONG_MAX then Fail([])
      else if n == 0 then
        match NextLine(s, closes)
        case Some((next, rest)) => Trailer(next, rest, closes)
        case None => Fail([])
      else if |s| < n then Fail(s)
      else
        match AfterChunk(s[n..], closes)
        case Some((next, rest)) =>
          Prepend(s[..n], Chunks(next, rest, closes))
        case None => Fail(s[..n])
  }

  /** The line end that closes a chunk, and the size line of the next one. */
  function AfterChunk(s: Bytes, closes: bool): (r: Option<(Bytes, Bytes)>)
    ensures r.Some? ==> |r.value.1| < |s|
  {
    match NextLine(s, closes)
    case Some((end, rest)) => if end == CRLF then NextLine(rest, closes) else None
    case None => None
  }

  lemma OneChunk(line: Bytes, data: Bytes, s: Bytes, closes: bool)
    requires data != [] && Strtoul(line) == Some(|data|) && |data| < ULONG_MAX
    ensures Chunks(line, data + s, closes) ==
            match AfterChunk(s, closes)
            case Some((next, rest)) => Prepend(data, Chunks(next, rest, closes))
            case None => Fail(data)
  {
    assert (data + s)[..|data|] == data && (data + s)[|data|..] == s;
  }

  function Prepend(data: Bytes, r: Reception): Reception { r.(content := data + r.content) }

  /** What becomes of a chunked body that arrives as `s`: no mention of how it is fragmented. */
  function Received(s: Bytes, closes: bool): (r: Reception)
  {
    match NextLine(s, closes)
    case Some((line, rest)) => Chunks(line, rest, closes)
    case None => Fail([])
  }

  /** `read_content_with_length`: `data` is what the receiver is given. */
  method ReadContentWithLength(strm: SocketStream, len: nat, progress: bool, out: Receiver)
    returns (ok: bool, ghost data: Bytes)
    requires strm.Valid() && !out.refuses
    modifies strm, strm.readBuff, strm.sock`incoming, out
    ensures strm.Valid() && out.content == old(out.content) + data && |data| <= len
    ensures old(strm.Pending()) == data + strm.Pending()
    ensures ok <==> !out.refuses && len <= |old(strm.Pending())|
    ensures !out.refuses ==> if ok then |data| == len else strm.Pending() == []
  {
    var buf := new byte[RECV_BUFSIZ];
    data := [];
    var r := 0;
    while r < len
      invariant strm.Valid() && !out.refuses && fresh(buf) && buf.Length == RECV_BUFSIZ
      invariant out.content == old(out.content) + data
      invariant r == |data| <= len && old(strm.Pending()) == data + strm.Pending()
    {
      ghost var before := strm.Pending();
      var n := strm.Read(buf, Min(len - r, RECV_BUFSIZ));
      if n <= 0 {
        return false, data;
      }
      ghost var got := buf[..n];
      Regroup(data, got, strm.Pending());
      Regroup(old(out.content), data, got);
      data := data + got;
      var more := out.Take(buf[..n]);
      if !more {
        return false, data;
      }
      r := r + n;
      if progress {
        more := out.Progress();
        if !more {
          return false, data;
        }
      }
    }
    return true, data;
  }

  datatype Step = Failed | LastChunk | NextChunk

  /** Of the reception `all`, `content` has been handed over and `now` is to come. */
  predicate SoFar(all: Reception, content: Bytes, now: Reception, step: Step, refused: bool)
  {
    if refused then step == Failed && content <= all.content
    else if step == Failed then all == Fail(content)
    else all == Prepend(content, now)
  }

  /** A receiver that refuses within a chunk has been given the beginning of the content. */
  lemma RefusedInChunk(line: Bytes, s: Bytes, data: Bytes, closes: bool)
    requires data <= s && Strtoul(line).Some? && |data| <= Strtoul(line).value < ULONG_MAX
    ensures data <= Chunks(line, s, closes).content
  {
    var n := Strtoul(line).value;
    if n > 0 && n <= |s| {
      assert data <= s[..n];
    }
  }

  /** The body of the loop over the chunks. */
  method ReadChunk(lineReader: StreamLineReader, out: Receiver) returns (step: Step, ghost data: Bytes)
    requires lineReader.Valid() && lineReader.strm.Valid() && !out.refuses
    modifies lineReader, lineReader.fixedBuffer, lineReader.strm, lineReader.strm.readBuff
    modifies lineReader.strm.sock`incoming, out
    ensures lineReader.Valid() && lineReader.strm.Valid()
    ensures out.content == old(out.content) + data && (out.refuses ==> step == Failed)
    ensures
      var line, s, closes := old(lineReader.Line()), old(lineReader.strm.Pending()), lineReader.strm.sock.closes;
      && SoFar(Chunks(line, s, closes), data, Chunks(lineReader.Line(), lineReader.strm.Pending(), closes), step,
               out.refuses)
      && (step == LastChunk ==> Strtoul(lineReader.Line()) == Some(0))
      && (step == NextChunk ==> |lineReader.strm.Pending()| < |s|)
  {
    ghost var line, before := lineReader.Line(), lineReader.strm.Pending();
    data := [];
    var chunkLen := Strtoul(lineReader.Line());
    if chunkLen == None || chunkLen == Some(ULONG_MAX) {
      return Failed, data;
    }
    if chunkLen == Some(0) {
      return LastChunk, data;
    }
    var complete;
    complete, data := ReadContentWithLength(lineReader.strm, chunkLen.value, false, out);
    if !complete {
      RefusedInChunk(line, before, data, lineReader.strm.sock.closes);
      assert !out.refuses ==> data == before;
      return Failed, data;
    }
    OneChunk(line, data, lineReader.strm.Pending(), lineReader.strm.sock.closes);
    var ok := NextSizeLine(lineReader);
    step := if ok then NextChunk else Failed;
  }

  lemma OneMoreChunk(all: Reception, content: Bytes, before: Reception, data: Bytes, now: Reception, step: Step,
      refused: bool)
    requires all == Prepend(content, before) && SoFar(before, data, now, step, refused)
    ensures SoFar(all, content + data, now, step, refused)
  {
    PrependTwice(content, data, now);
  }

  /** After the last chunk only the trailer is left. */
  lemma TrailerIsLeft(line: Bytes, s: Bytes, closes: bool)
    requires Strtoul(line) == Some(0)
    ensures Chunks(line, s, closes) ==
            match NextLine(s, closes)
            case Some((next, rest)) => Trailer(next, rest, closes)
            case None => Fail([])
  {
  }

  /** The loop over the chunks. */
  method ReadEveryChunk(lineReader: StreamLineReader, out: Receiver) returns (step: Step, ghost content: Bytes)
    requires lineReader.Valid() && lineReader.strm.Valid() && !out.refuses
    modifies lineReader, lineReader.fixedBuffer, lineReader.strm, lineReader.strm.readBuff
    modifies lineReader.strm.sock`incoming, out
    ensures lineReader.Valid() && lineReader.strm.Valid() && out.content == old(out.content) + content
    ensures step != NextChunk && (step == LastChunk ==> Strtoul(lineReader.Line()) == Some(0))
    ensures
      var line, s, closes := old(lineReader.Line()), old(lineReader.strm.Pending()), lineReader.strm.sock.closes;
      SoFar(Chunks(line, s, closes), content, Chunks(lineReader.Line(), lineReader.strm.Pending(), closes), step,
            out.refuses)
  {
    content := [];
    ghost var given := out.content;
    ghost var closes := lineReader.strm.sock.closes;
    ghost var all := Chunks(lineReader.Line(), lineReader.strm.Pending(), closes);
    ghost var now := all;
    assert all == Prepend([], all);
    step := NextChunk;
    while step == NextChunk
      invariant lineReader.Valid() && lineReader.strm.Valid()
      invariant out.content == given + content
      invariant now == Chunks(lineReader.Line(), lineReader.strm.Pending(), closes)
      invariant SoFar(all, content, now, step, out.refuses)
      invariant step == LastChunk ==> Strtoul(lineReader.Line()) == Some(0)
      decreases step == NextChunk, |lineReader.strm.Pending()|
    {
      ghost var before := now;
      ghost var data;
      step, data := ReadChunk(lineReader, out);
      now := Chunks(lineReader.Line(), lineReader.strm.Pending(), closes);
      OneMoreChunk(all, content, before, data, now, step, out.refuses);
      Regroup(given, content, data);
      content := content + data;
    }
  }

  /** The loop over the chunks and the trailer. */
  method ReadChunks(lineReader: StreamLineReader, out: Receiver) returns (ok: bool, ghost content: Bytes)
    requires lineReader.Valid() && lineReader.strm.Valid() && !out.refuses
    modifies lineReader, lineReader.fixedBuffer, lineReader.strm, lineReader.strm.readBuff
    modifies lineReader.strm.sock`incoming, out
    ensures lineReader.Valid() && lineReader.strm.Valid() && out.content == old(out.content) + content
    ensures
      var r := Chunks(old(lineReader.Line()), old(lineReader.strm.Pending()), lineReader.strm.sock.closes);
      && (out.refuses ==> !ok && content <= r.content)
      && (!out.refuses ==> ok == r.ok && content == r.content && (ok ==> lineReader.strm.Pending() == r.rest))
  {
    var step;
    step, content := ReadEveryChunk(lineReader, out);
    if step == Failed {
      return false, content;
    }
    TrailerIsLeft(lineReader.Line(), lineReader.strm.Pending(), lineReader.strm.sock.closes);
    ok := ReadTrailer(lineReader);
    assert content + [] == content;
  }

  /** `read_content_chunked`: the result depends on the bytes that arrive, not on how the socket cuts them
      into fragments. */
  method ReadContentChunked(strm: SocketStream, out: Receiver) returns (ok: bool, ghost content: Bytes)
    requires strm.Valid() && !out.refuses
    modifies strm, strm.readBuff, strm.sock`incoming, out
    ensures strm.Valid() && out.content == old(out.content) + content
    ensures
      var r := Received(old(strm.Pending()), strm.sock.closes);
      && (out.refuses ==> !ok && content <= r.content)
      && (!out.refuses ==> ok == r.ok && content == r.content && (ok ==> strm.Pending() == r.rest))
  {
    var buf := new byte[16];
    var lineReader := new StreamLineReader(strm, buf);
    content := [];
    ok := lineReader.GetLine();
    if !ok {
      return false, content;
    }
    ok, content := ReadChunks(lineReader, out);
  }

  lemma PrependTwice(a: Bytes, b: Bytes, r: Reception)
    ensures Prepend(a, Prepend(b, r)) == Prepend(a + b, r)
  {
  }

  /** The two lines read after the bytes of a chunk. */
  method NextSizeLine(lineReader: StreamLineReader) returns (ok: bool)
    requires lineReader.Valid() && lineReader.strm.Valid()
    modifies lineReader, lineReader.fixedBuffer, lineReader.strm, lineReader.strm.readBuff
    modifies lineReader.strm.sock`incoming
    ensures lineReader.Valid() && lineReader.strm.Valid()
    ensures
      match AfterChunk(old(lineReader.strm.Pending()), lineReader.strm.sock.closes)
      case Some((line, rest)) => ok && lineReader.Line() == line && lineReader.strm.Pending() == rest
      case None => !ok
  {
    ok := lineReader.GetLine();
    if !ok || lineReader.Line() != CRLF {
      return false;
    }
    ok := lineReader.GetLine();
  }

  method ReadTrailer(lineReader: StreamLineReader) returns (ok: bool)
    requires lineReader.Valid() && lineReader.strm.Valid()
    modifies lineReader, lineReader.fixedBuffer, lineReader.strm, lineReader.strm.readBuff
    modifies lineReader.strm.sock`incoming
    ensures lineReader.Valid() && lineReader.strm.Valid()
    ensures
      match NextLine(old(lineReader.strm.Pending()), lineReader.strm.sock.closes)
      case Some((line, rest)) =>
        var r := Trailer(line, rest, lineReader.strm.sock.closes);
        ok == r.ok && (ok ==> lineReader.strm.Pending() == r.rest)
      case None => !ok
  {
    ok := lineReader.GetLine();
    if !ok {
      return;
    }
    ghost var all := Trailer(lineReader.Line(), lineReader.strm.Pending(), lineReader.strm.sock.closes);
    while lineReader.Line() != CRLF
      invariant lineReader.Valid() && lineReader.strm.Valid()
      invariant all == Trailer(lineReader.Line(), lineReader.strm.Pending(), lineReader.strm.sock.closes)
      decreases |lineReader.strm.Pending()|
    {
      if |lineReader.Line()| > HEADER_MAX_LENGTH {
        return false;
      }
      var more := lineReader.GetLine();
      if !more {
        return false;
      }
    }
    return true;
  }

  // ---- writing --------------------------------------------------------------------------

  /** A use that the content provider makes of its data sink. */
  datatype SinkCall = Write(payload: Bytes) | Done

  function Emitted(c: SinkCall): (s: Bytes)
  {
    match c
    case Write(p) => if p == [] then [] else Hex(|p|) + CRLF + p + CRLF
    case Done => LAST_CHUNK + CRLF
  }

  function Payload(c: SinkCall): (s: Bytes)
  {
    match c
    case Write(p) => p
    case Done => []
  }

  function Encoded(calls: seq<SinkCall>): (s: Bytes)
  {
    if calls == [] then [] else Encoded(calls[..|calls| - 1]) + Emitted(calls[|calls| - 1])
  }

  function Payloads(calls: seq<SinkCall>): (s: Bytes)
  {
    if calls == [] then []
    else Payloads(calls[..|calls| - 1]) + Payload(calls[|calls| - 1])
  }

  /** More data is expected after these calls: the last one was neither `done` nor an empty write. */
  predicate DataAvailable(calls: seq<SinkCall>)
  {
    calls == [] || (calls[|calls| - 1].Write? && calls[|calls| - 1].payload != [])
  }

  method WriteData(strm: SocketStream, d: Bytes) returns (ok: bool)
    modifies strm.sock`outgoing
    ensures ok ==> strm.sock.outgoing == old(strm.sock.outgoing) + d
    ensures strm.sock.healthy ==> ok
  {
    var offset := 0;
    while offset < |d|
      invariant offset <= |d| && strm.sock.outgoing == old(strm.sock.outgoing) + d[..offset]
    {
      var length := strm.Write(d[offset..]);
      if length < 0 {
        return false;
      }
      assert d[..offset] + d[offset..][..length] == d[..offset + length];
      offset := offset + length;
    }
    return true;
  }

  /** The sink of `write_content_chunked`, without compression. */
  class DataSink {
    const strm: SocketStream
    var dataAvailable: bool
    var ok: bool
    ghost var before: Bytes
    ghost var calls: seq<SinkCall>

    /** As long as all went well, exactly the calls are on the wire. */
    ghost predicate Valid()
      reads this, strm.sock
    {
      && (ok ==> strm.sock.outgoing == before + Encoded(calls) && dataAvailable == DataAvailable(calls))
      && (strm.sock.healthy ==> ok)
    }

    constructor (strm: SocketStream)
      ensures Valid() && this.strm == strm && ok && calls == [] && before == strm.sock.outgoing
    {
      this.strm, dataAvailable, ok, before, calls := strm, true, true, strm.sock.outgoing, [];
    }

    method Write(d: Bytes)
      requires Valid()
      modifies this`dataAvailable, this`ok, this`calls, strm.sock`outgoing
      ensures Valid() && calls == old(calls) + [SinkCall.Write(d)] && (ok ==> old(ok))
    {
      calls := calls + [SinkCall.Write(d)];
      assert calls[..|calls| - 1] == old(calls);
      if ok {
        dataAvailable := |d| > 0;
        if d != [] {
          var size := FromIToHex(|d|);
          var writable := strm.IsWritable();
          if writable {
            ok := WriteData(strm, size + CRLF + d + CRLF);
          } else {
            ok := false;
          }
        }
      }
    }

    method Done()
      requires Valid()
      modifies this`dataAvailable, this`ok, this`calls, strm.sock`outgoing
      ensures Valid() && calls == old(calls) + [SinkCall.Done] && (ok ==> old(ok))
    {
      calls := calls + [SinkCall.Done];
      assert calls[..|calls| - 1] == old(calls);
      if ok {
        dataAvailable := false;
        var marked := WriteData(strm, LAST_CHUNK);
        var ended := WriteData(strm, CRLF);
        ok := marked && ended;
      }
    }
  }

  /** The calls that an invocation of the content provider makes, and its answer. */
  datatype Invocation = Invocation(calls: seq<SinkCall>, goesOn: bool)

  datatype Outcome = Success | WriteError | Canceled

  /** The calls made from the `i`-th invocation on, after `calls`: until no data is available or the server
      shuts down. `None` when the provider gives up before. */
  function MadeFrom(script: seq<Invocation>, i: nat, calls: seq<SinkCall>, limit: Option<nat>)
    : (r: Option<seq<SinkCall>>)
    requires i <= |script|
    decreases |script| - i
  {
    if !DataAvailable(calls) || limit == Some(i) then Some(calls)
    else if i == |script| || !script[i].goesOn then None
    else MadeFrom(script, i + 1, calls + script[i].calls, limit)
  }

  function Made(script: seq<Invocation>, limit: Option<nat>): (r: Option<seq<SinkCall>>)
  {
    MadeFrom(script, 0, [], limit)
  }

  /** `write_content_chunked`, for a provider that acts as `script[i]` says when it is invoked for the `i`-th
      time and gives up after the last, while `is_shutting_down` becomes true after `limit` invocations. */
  method WriteContentChunked(strm: SocketStream, script: seq<Invocation>, limit: Option<nat>) returns (r: Outcome)
    modifies strm.sock`outgoing
    ensures r == Success ==> Made(script, limit).Some?
    ensures r == Success ==> strm.sock.outgoing == old(strm.sock.outgoing) + Encoded(Made(script, limit).value)
    ensures r == Canceled ==> Made(script, limit) == None
    ensures r == WriteError ==> !strm.sock.healthy
  {
    var sink := new DataSink(strm);
    var i := 0;
    while sink.dataAvailable && limit != Some(i)
      invariant sink.Valid() && fresh(sink) && sink.strm == strm && sink.ok && i <= |script|
      invariant sink.before == old(strm.sock.outgoing)
      invariant Made(script, limit) == MadeFrom(script, i, sink.calls, limit)
      decreases |script| - i
    {
      var writable := strm.IsWritable();
      if !writable {
        return WriteError;
      }
      if i == |script| {
        return Canceled;
      }
      Invoke(sink, script[i].calls);
      if !script[i].goesOn {
        return Canceled;
      }
      if !sink.ok {
        return WriteError;
      }
      i := i + 1;
    }
    return Success;
  }

  method Invoke(sink: DataSink, calls: seq<SinkCall>)
    requires sink.Valid()
    modifies sink`dataAvailable, sink`ok, sink`calls, sink.strm.sock`outgoing
    ensures sink.Valid() && sink.calls == old(sink.calls) + calls
  {
    for i := 0 to |calls|
      invariant sink.Valid() && sink.calls == old(sink.calls) + calls[..i]
    {
      match calls[i] {
        case Write(d) => sink.Write(d);
        case Done => sink.Done();
      }
    }
  }

  // ---- round trip ---------------------------------------------------------------------

  predicate IsWrites(calls: seq<SinkCall>)
  {
    forall i :: 0 <= i < |calls| ==> calls[i].Write? && |calls[i].payload| < ULONG_MAX
  }

  lemma NoLfInHex(n: nat)
    ensures LF !in Hex(n) + [13]
  {
    HexRoundTrip(n);
    assert DigitValue(LF) == None;
  }

  lemma LineOf(text: Bytes, rest: Bytes, closes: bool)
    requires LF !in text + [13]
    ensures NextLine(text + CRLF + rest, closes) == Some((text + CRLF, rest))
  {
    var line := text + [13];
    assert text + CRLF == line + [LF];
    assert text + CRLF + rest == line + ([LF] + rest);
    LineStep(line, LF, [LF] + rest, rest, closes);
  }

  lemma SizeLine(n: nat, rest: Bytes, closes: bool)
    requires n <= ULONG_MAX
    ensures NextLine(Hex(n) + CRLF + rest, closes) == Some((Hex(n) + CRLF, rest))
    ensures Strtoul(Hex(n) + CRLF) == Some(n)
  {
    NoLfInHex(n);
    LineOf(Hex(n), rest, closes);
    StrtoulOfHex(n, CRLF);
  }

  lemma BlankLine(rest: Bytes, closes: bool)
    ensures NextLine(CRLF + rest, closes) == Some((CRLF, rest))
  {
    LineOf([], rest, closes);
    assert [] + CRLF + rest == CRLF + rest && [] + CRLF == CRLF;
  }

  lemma AfterBlankLine(tail: Bytes, closes: bool)
    ensures AfterChunk(CRLF + tail, closes) == NextLine(tail, closes)
  {
    BlankLine(tail, closes);
  }

  lemma ChunkAndRest(line: Bytes, data: Bytes, tail: Bytes, closes: bool)
    requires data != [] && Strtoul(line) == Some(|data|) && |data| < ULONG_MAX
    ensures Chunks(line, data + (CRLF + tail), closes) == Prepend(data, Received(tail, closes))
  {
    OneChunk(line, data, CRLF + tail, closes);
    AfterBlankLine(tail, closes);
    assert data + [] == data;
  }

  lemma ReceivedFromSize(n: nat, rest: Bytes, closes: bool)
    requires n <= ULONG_MAX
    ensures Received(Hex(n) + CRLF + rest, closes) == Chunks(Hex(n) + CRLF, rest, closes)
    ensures Strtoul(Hex(n) + CRLF) == Some(n)
  {
    SizeLine(n, rest, closes);
  }

  lemma WrittenChunk(p: Bytes, tail: Bytes, closes: bool)
    requires |p| < ULONG_MAX
    ensures Received(Emitted(Write(p)) + tail, closes) == Prepend(p, Received(tail, closes))
  {
    if p != [] {
      var line := Hex(|p|) + CRLF;
      Regroup(line, p, CRLF);
      Regroup(line, p + CRLF, tail);
      Regroup(p, CRLF, tail);
      ReceivedFromSize(|p|, p + (CRLF + tail), closes);
      ChunkAndRest(Hex(|p|) + CRLF, p, tail, closes);
    } else {
      assert [] + tail == tail;
    }
  }

  /** Whatever follows the chunks is read as if it stood alone. */
  lemma {:induction false} WrittenChunks(calls: seq<SinkCall>, tail: Bytes, closes: bool)
    requires IsWrites(calls)
    ensures Received(Encoded(calls) + tail, closes) == Prepend(Payloads(calls), Received(tail, closes))
  {
    if calls == [] {
      assert [] + tail == tail;
    } else {
      var front, last := calls[..|calls| - 1], calls[|calls| - 1];
      WrittenChunk(last.payload, tail, closes);
      WrittenChunks(front, Emitted(last) + tail, closes);
      assert Encoded(calls) + tail == Encoded(front) + (Emitted(last) + tail);
      PrependTwice(Payloads(front), last.payload, Received(tail, closes));
    }
  }

  lemma LastChunkEnds(more: Bytes, closes: bool)
    ensures Received(LAST_CHUNK + CRLF + more, closes) == Reception(true, [], more)
  {
    var line := Hex(0) + CRLF;
    assert Hex(0) == [48];
    assert line == LAST_CHUNK && LAST_CHUNK + CRLF + more == line + (CRLF + more);
    ReceivedFromSize(0, CRLF + more, closes);
    BlankLine(more, closes);
    assert Trailer(CRLF, more, closes) == Reception(true, [], more);
  }

  lemma OneCallMore(calls: seq<SinkCall>, c: SinkCall)
    ensures Encoded(calls + [c]) == Encoded(calls) + Emitted(c)
    ensures Payloads(calls + [c]) == Payloads(calls) + Payload(c)
  {
    assert (calls + [c])[..|calls|] == calls;
  }

  lemma LastApart<T>(s: seq<T>, more: seq<T>)
    requires more != []
    ensures
      var front, last := more[..|more| - 1], more[|more| - 1];
      front + [last] == more && s + front + [last] == s + more
  {
  }

  lemma CutAt<T>(s: seq<T>, k: nat)
    requires k < |s|
    ensures s[..k] + [s[k]] + s[k + 1..] == s
  {
  }

  lemma {:induction false} CallsSplit(calls: seq<SinkCall>, more: seq<SinkCall>)
    ensures Encoded(calls + more) == Encoded(calls) + Encoded(more)
    ensures Payloads(calls + more) == Payloads(calls) + Payloads(more)
  {
    if more == [] {
      assert calls + more == calls;
      var none: Bytes := [];
      assert Encoded(more) == none == Payloads(more);
      assert Encoded(calls) + none == Encoded(calls) && Payloads(calls) + none == Payloads(calls);
    } else {
      var front, last := more[..|more| - 1], more[|more| - 1];
      CallsSplit(calls, front);
      OneCallMore(front, last);
      OneCallMore(calls + front, last);
      LastApart(calls, more);
      Regroup(Encoded(calls), Encoded(front), Emitted(last));
      Regroup(Payloads(calls), Payloads(front), Payload(last));
    }
  }

  /** Position of the first `done`, or the number of the calls. */
  function FirstDone(calls: seq<SinkCall>): (k: nat)
    ensures k <= |calls| && (k < |calls| ==> calls[k].Done?) && forall i :: 0 <= i < k ==> calls[i].Write?
  {
    if calls == [] || calls[0].Done? then 0 else 1 + FirstDone(calls[1..])
  }

  /** The payloads that a chunk can hold. */
  predicate ChunkSized(calls: seq<SinkCall>)
  {
    forall i :: 0 <= i < |calls| && calls[i].Write? ==> |calls[i].payload| < ULONG_MAX
  }

  lemma AroundDone(calls: seq<SinkCall>, front: seq<SinkCall>, k: nat, back: seq<SinkCall>)
    requires k < |calls| && calls[k].Done? && front == calls[..k] && back == calls[k + 1..]
    ensures Encoded(calls) == Encoded(front + [Done]) + Encoded(back)
    ensures Payloads(calls) == Payloads(front) + Payloads(back)
  {
    CutAt(calls, k);
    CallsSplit(front + [Done], back);
    OneCallMore(front, Done);
    assert Payloads(front) + [] == Payloads(front);
  }

  lemma EndedByDone(front: seq<SinkCall>, whole: Bytes, tail: Bytes, closes: bool)
    requires IsWrites(front) && whole == Encoded(front + [Done]) + tail
    ensures Received(whole, closes) == Reception(true, Payloads(front), tail)
  {
    var end := LAST_CHUNK + CRLF;
    OneCallMore(front, Done);
    Regroup(Encoded(front), end, tail);
    WrittenChunks(front, end + tail, closes);
    LastChunkEnds(tail, closes);
    assert Payloads(front) + [] == Payloads(front);
  }

  lemma DoneIsRead(calls: seq<SinkCall>, k: nat, more: Bytes, closes: bool)
    requires ChunkSized(calls) && k == FirstDone(calls) < |calls|
    ensures
      Received(Encoded(calls) + more, closes) == Reception(true, Payloads(calls[..k]), Encoded(calls[k + 1..]) + more)
  {
    var front, back := calls[..k], calls[k + 1..];
    AroundDone(calls, front, k, back);
    Regroup(Encoded(front + [Done]), Encoded(back), more);
    EndedByDone(front, Encoded(calls) + more, Encoded(back) + more, closes);
  }

  /** What is read of any calls at all: the writes before the first `done`. What comes after it is left for the
      next message, and without it the body is incomplete. */
  lemma CallsAreRead(calls: seq<SinkCall>, more: Bytes, closes: bool)
    requires ChunkSized(calls)
    ensures
      var k := FirstDone(calls);
      Received(Encoded(calls) + more, closes) ==
      if k < |calls| then Reception(true, Payloads(calls[..k]), Encoded(calls[k + 1..]) + more)
      else Prepend(Payloads(calls), Received(more, closes))
  {
    if FirstDone(calls) < |calls| {
      DoneIsRead(calls, FirstDone(calls), more, closes);
    } else {
      WrittenChunks(calls, more, closes);
    }
  }

  /** The whole of a body. */
  predicate InFull(r: Reception, calls: seq<SinkCall>) { r.ok && r.content == Payloads(calls) }

  lemma UpToDone(calls: seq<SinkCall>, k: nat, closes: bool)
    requires ChunkSized(calls) && k == FirstDone(calls) < |calls|
    ensures Received(Encoded(calls), closes) == Reception(true, Payloads(calls[..k]), Encoded(calls[k + 1..]))
  {
    var front, back := calls[..k], calls[k + 1..];
    AroundDone(calls, front, k, back);
    EndedByDone(front, Encoded(calls), Encoded(back), closes);
  }

  lemma NeverDone(calls: seq<SinkCall>, closes: bool)
    requires ChunkSized(calls) && FirstDone(calls) == |calls|
    ensures Received(Encoded(calls), closes) == Fail(Payloads(calls))
  {
    var none: Bytes, sent, written := [], Encoded(calls), Payloads(calls);
    WrittenChunks(calls, none, closes);
    assert sent + none == sent && written + none == written;
    assert Received(none, closes) == Fail(none);
  }

  lemma FullIfNothingFollows(calls: seq<SinkCall>, k: nat, r: Reception)
    requires k < |calls| && calls[k].Done? && r.ok && r.content == Payloads(calls[..k])
    ensures InFull(r, calls) <==> Payloads(calls[k + 1..]) == []
  {
    var front, back := Payloads(calls[..k]), Payloads(calls[k + 1..]);
    AroundDone(calls, calls[..k], k, calls[k + 1..]);
    assert |front + back| == |front| + |back|;
    assert back == [] ==> front + back == front;
  }

  /** The receiver gets all that was written, successfully, if and only if `done` was called and nothing was
      written after the first time. */
  lemma ReceivedInFullExactly(calls: seq<SinkCall>, closes: bool)
    requires ChunkSized(calls)
    ensures
      var k := FirstDone(calls);
      InFull(Received(Encoded(calls), closes), calls) <==> k < |calls| && Payloads(calls[k + 1..]) == []
  {
    var k := FirstDone(calls);
    if k < |calls| {
      UpToDone(calls, k, closes);
      FullIfNothingFollows(calls, k, Received(Encoded(calls), closes));
    } else {
      NeverDone(calls, closes);
    }
  }

  /** Every invocation of the provider makes one call of the sink. */
  predicate OneByOne(script: seq<Invocation>)
  {
    forall i :: 0 <= i < |script| ==> |script[i].calls| == 1
  }

  lemma {:induction false} MadeOneByOne(script: seq<Invocation>, i: nat, calls: seq<SinkCall>, limit: Option<nat>)
    requires OneByOne(script) && i <= |script| && MadeFrom(script, i, calls, limit).Some?
    requires forall j :: 0 <= j < |calls| - 1 ==> calls[j].Write?
    ensures
      var made := MadeFrom(script, i, calls, limit).value;
      forall j :: 0 <= j < |made| - 1 ==> made[j].Write?
    decreases |script| - i
  {
    if DataAvailable(calls) && limit != Some(i) {
      MadeOneByOne(script, i + 1, calls + script[i].calls, limit);
    }
  }

  /** The body of a provider that makes one call per invocation is received in full if and only if its last call
      is `done`, whether or not the server shuts down meanwhile. */
  lemma SentIsReceivedExactly(script: seq<Invocation>, limit: Option<nat>, closes: bool)
    requires OneByOne(script) && Made(script, limit).Some? && ChunkSized(Made(script, limit).value)
    ensures
      var calls := Made(script, limit).value;
      InFull(Received(Encoded(calls), closes), calls) <==> calls != [] && calls[|calls| - 1].Done?
  {
    var calls := Made(script, limit).value;
    MadeOneByOne(script, 0, [], limit);
    ReceivedInFullExactly(calls, closes);
    assert calls != [] && FirstDone(calls) == |calls| - 1 ==> calls[FirstDone(calls) + 1..] == [];
  }

  /** A body of writes and then `done` is received in full, whatever follows it on the connection. */
  lemma ChunkedRoundTrip(calls: seq<SinkCall>, more: Bytes, closes: bool)
    requires IsWrites(calls)
    ensures Received(Encoded(calls + [Done]) + more, closes) == Reception(true, Payloads(calls), more)
  {
    var all := calls + [Done];
    CallsAreRead(all, more, closes);
    assert FirstDone(all) == |calls| && all[..|calls|] == calls && all[|calls| + 1..] == [];
    assert Encoded([]) + more == more;
  }

  /** A provider that ends with an empty write instead is told that all went well, but the receiver sees an
      incomplete body: the last chunk is never sent. */
  lemma EmptyWriteIsNoEnd(calls: seq<SinkCall>, closes: bool)
    requires IsWrites(calls)
    ensures
      var all := calls + [Write([])];
      Made([Invocation(all, true)], None) == Some(all) && Received(Encoded(all), closes) == Fail(Payloads(calls))
  {
    var all := calls + [Write([])];
    var script := [Invocation(all, true)];
    assert [] + all == all;
    assert MadeFrom(script, 1, all, None) == Some(all);
    NeverDone(all, closes);
    OneCallMore(calls, Write([]));
  }
}
