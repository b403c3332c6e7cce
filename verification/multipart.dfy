/** The body of a part of a multipart message (RFC 2046, section 5.1.1): the buffer window and states 3
    and 4 of `MultipartFormDataParser` (httplib.h:4654-4666, 4776-4820, 4836-4932). */
module Multipart {
  import opened ByteStrings
  import opened Receivers

  const CRLF: Bytes := [13, 10]
  const DASH: Bytes := [45, 45]

  const NEW_ENTRY := 1
  const BODY := 3
  const BOUNDARY := 4

  // ---- searching --------------------------------------------------------------------------

  predicate MatchAt(s: Bytes, k: int, d: Bytes)
  {
    0 <= k && k + |d| <= |s| && s[k..k + |d|] == d
  }

  /** Position of the first occurrence of `d` at or after `from`, or the length. */
  function FindFirst(s: Bytes, d: Bytes, from: nat): (k: nat)
    requires from <= |s| && d != []
    ensures from <= k <= |s| && (k < |s| ==> MatchAt(s, k, d))
    ensures forall j {:trigger MatchAt(s, j, d)} :: from <= j < k ==> !MatchAt(s, j, d)
    decreases |s| - from
  {
    if from == |s| || MatchAt(s, from, d) then from else FindFirst(s, d, from + 1)
  }

  /** How much of the bytes `s` of a body is handed out: everything before the delimiter once it has been
      seen, and before that all but a last stretch as long as the delimiter. */
  function Cut(s: Bytes, d: Bytes): (n: nat)
    requires d != []
    ensures n <= |s|
    ensures FindFirst(s, d, 0) == |s| ==> |s| - n <= |d|
  {
    var k := FindFirst(s, d, 0);
    if k < |s| then k else if |s| >= |d| then |s| - |d| else 0
  }

  /** What the receiver has been given when the bytes `s` have arrived. */
  function Delivered(s: Bytes, d: Bytes): (content: Bytes)
    requires d != []
  {
    s[..Cut(s, d)]
  }

  lemma MatchGrows(s: Bytes, t: Bytes, k: int, d: Bytes)
    ensures k + |d| <= |s| ==> (MatchAt(s + t, k, d) <==> MatchAt(s, k, d))
  {
    if 0 <= k && k + |d| <= |s| {
      assert (s + t)[k..k + |d|] == s[k..k + |d|];
    }
  }

  lemma FirstIsFirst(s: Bytes, d: Bytes, k: nat)
    requires d != [] && MatchAt(s, k, d) && forall j :: 0 <= j < k ==> !MatchAt(s, j, d)
    ensures FindFirst(s, d, 0) == k
  {
  }

  lemma NoMatch(s: Bytes, d: Bytes)
    requires d != [] && forall j :: !MatchAt(s, j, d)
    ensures FindFirst(s, d, 0) == |s|
  {
  }

  /** Where the delimiter is first seen does not depend on what arrives later. */
  lemma FirstStays(s: Bytes, t: Bytes, d: Bytes)
    requires d != [] && FindFirst(s, d, 0) < |s|
    ensures FindFirst(s + t, d, 0) == FindFirst(s, d, 0)
  {
    var k := FindFirst(s, d, 0);
    MatchGrows(s, t, k, d);
    forall j | 0 <= j < k ensures !MatchAt(s + t, j, d) {
      MatchGrows(s, t, j, d);
    }
    FirstIsFirst(s + t, d, k);
  }

  /** Nothing delivered is ever taken back: the bytes held back are enough. */
  lemma DeliveredGrows(s: Bytes, t: Bytes, d: Bytes)
    requires d != []
    ensures Delivered(s, d) <= Delivered(s + t, d)
  {
    if FindFirst(s, d, 0) < |s| {
      FirstStays(s, t, d);
    } else {
      var k := FindFirst(s + t, d, 0);
      if k < |s + t| { MatchGrows(s, t, k, d); }
    }
  }

  lemma AtMatch(s: Bytes, k: nat, d: Bytes, i: nat)
    requires i < |d| && k + i < |s|
    ensures MatchAt(s, k, d) ==> s[k + i] == d[i]
  {
    assert MatchAt(s, k, d) ==> s[k..k + |d|][i] == s[k + i];
  }

  /** The content of a part is delivered exactly when it does not contain the delimiter, for a boundary
      without carriage returns. */
  lemma ContentIsDelivered(content: Bytes, boundary: Bytes, rest: Bytes)
    requires 13 !in boundary
    ensures
      var d := CRLF + DASH + boundary;
      Delivered(content + d + rest, d) == content <==> forall j :: !MatchAt(content, j, d)
  {
    var d := CRLF + DASH + boundary;
    var s := content + d + rest;
    var k := |content|;
    assert MatchAt(s, k, d);
    forall j | 0 <= j < k ensures MatchAt(s, j, d) <==> MatchAt(content, j, d) {
      if j + |d| <= k {
        MatchGrows(content, d + rest, j, d);
        assert s == content + (d + rest);
      } else {
        assert s[k] == d[0] == 13 && d[k - j] != 13;
        AtMatch(s, j, d, k - j);
      }
    }
    if forall j :: !MatchAt(content, j, d) {
      FirstIsFirst(s, d, k);
    } else {
      var j :| MatchAt(content, j, d);
      assert MatchAt(s, j, d);
      assert FindFirst(s, d, 0) <= j;
    }
  }

  /** What has been delivered already need not be searched again. */
  lemma FindInWindow(s: Bytes, d: Bytes, m: nat)
    requires d != [] && m <= |s| && forall j :: 0 <= j < m ==> !MatchAt(s, j, d)
    ensures FindFirst(s, d, 0) == m + FindFirst(s[m..], d, 0)
  {
    var k := FindFirst(s[m..], d, 0);
    forall j | m <= j <= |s| ensures MatchAt(s, j, d) <==> MatchAt(s[m..], j - m, d) {
      if j + |d| <= |s| {
        assert s[m..][j - m..j - m + |d|] == s[j..j + |d|];
      }
    }
    if k < |s[m..]| {
      FirstIsFirst(s, d, m + k);
    } else {
      NoMatch(s, d);
    }
  }

  // ---- one call -----------------------------------------------------------------------------

  /** State, validity and window of the parser. */
  datatype Status = Status(state: nat, isValid: bool, window: Bytes)

  predicate StartsWith(s: Bytes, d: Bytes) { d <= s }

  /** What the parser makes of the bytes after the delimiter. */
  function AtBoundary(window: Bytes, isValid: bool): (r: Status)
  {
    if |window| < 2 then Status(BOUNDARY, isValid, window)
    else if StartsWith(window, CRLF) then Status(NEW_ENTRY, isValid, window[2..])
    else if StartsWith(window, DASH) then Status(BOUNDARY, true, [])
    else Status(BOUNDARY, isValid, window)
  }

  /** The status once the bytes `s` of a body have arrived, however they were cut. */
  function StatusOf(s: Bytes, d: Bytes): (r: Status)
    requires d != []
  {
    if FindFirst(s, d, 0) < |s| then AtBoundary(s[Cut(s, d) + |d|..], false)
    else Status(BODY, false, s[Cut(s, d)..])
  }

  /** The body state on a window: what is handed out, what stays, and whether the delimiter was found. */
  function AtBody(window: Bytes, d: Bytes): (r: (Bytes, Bytes, bool))
    requires d != []
  {
    var n, found := Cut(window, d), FindFirst(window, d, 0) < |window|;
    (window[..n], window[if found then n + |d| else n..], found)
  }

  /** What one call of `parse` hands out, and what it leaves, once the data has joined the window. */
  function Parsed(st: Status, d: Bytes): (r: (Bytes, Status))
    requires d != []
  {
    if st.state == BODY then
      var (content, rest, found) := AtBody(st.window, d);
      (content, if found then AtBoundary(rest, st.isValid) else st.(window := rest))
    else if st.state == BOUNDARY then ([], AtBoundary(st.window, st.isValid))
    else ([], st)
  }

  lemma SliceOfSum(s: Bytes, t: Bytes, k: nat)
    requires k <= |s|
    ensures (s + t)[k..] == s[k..] + t && (s + t)[..k] == s[..k]
  {
  }

  /** `a` more bytes are handed out, and `b` bytes leave the window. */
  lemma Advance(s: Bytes, m: nat, a: nat, b: nat)
    requires m + a <= m + b <= |s|
    ensures s[..m] + s[m..][..a] == s[..m + a] && s[m..][b..] == s[m + b..]
  {
  }

  lemma CutInWindow(all: Bytes, d: Bytes, m: nat)
    requires d != [] && m <= |all| && (m == 0 || |all| - m >= |d|)
    requires forall j :: 0 <= j < m ==> !MatchAt(all, j, d)
    ensures Cut(all, d) == m + Cut(all[m..], d)
    ensures FindFirst(all, d, 0) == m + FindFirst(all[m..], d, 0)
  {
    FindInWindow(all, d, m);
  }

  /** One step in the body state, when `m` bytes of `all` have been handed out before. */
  lemma BodyStep(all: Bytes, d: Bytes, m: nat, window: Bytes)
    requires d != [] && m <= |all| && window == all[m..] && (m == 0 || |window| >= |d|)
    requires forall j :: 0 <= j < m ==> !MatchAt(all, j, d)
    ensures
      var (content, rest, found) := AtBody(window, d);
      && found == (FindFirst(all, d, 0) < |all|) && all[..m] + content == Delivered(all, d)
      && rest == all[if found then Cut(all, d) + |d| else Cut(all, d)..]
  {
    CutInWindow(all, d, m);
    var n := Cut(window, d);
    Advance(all, m, n, if FindFirst(window, d, 0) < |window| then n + |d| else n);
  }

  lemma BodyArrives(s: Bytes, data: Bytes, d: Bytes, m: nat)
    requires d != [] && FindFirst(s, d, 0) == |s| && m == Cut(s, d)
    ensures
      var all := s + data;
      var (content, rest, found) := AtBody(s[m..] + data, d);
      && found == (FindFirst(all, d, 0) < |all|) && s[..m] + content == Delivered(all, d)
      && rest == all[if found then Cut(all, d) + |d| else Cut(all, d)..]
  {
    forall j | 0 <= j < m ensures !MatchAt(s + data, j, d) {
      MatchGrows(s, data, j, d);
    }
    SliceOfSum(s, data, m);
    BodyStep(s + data, d, m, (s + data)[m..]);
  }

  lemma StaysAtBoundary(window: Bytes, st: Status)
    requires st == AtBoundary(window, false) && st.state == BOUNDARY && !st.isValid
    ensures st == Status(BOUNDARY, false, window)
  {
  }

  lemma BoundaryArrives(s: Bytes, data: Bytes, d: Bytes, k: nat)
    requires d != [] && FindFirst(s, d, 0) < |s| && k == Cut(s, d)
    ensures FindFirst(s + data, d, 0) < |s + data| && Cut(s + data, d) == k
    ensures (s + data)[k + |d|..] == s[k + |d|..] + data && (s + data)[..k] == s[..k]
  {
    FirstStays(s, data, d);
    SliceOfSum(s, data, k + |d|);
    SliceOfSum(s, data, k);
  }

  lemma ParsedInBody(s: Bytes, data: Bytes, d: Bytes)
    requires d != [] && FindFirst(s, d, 0) == |s|
    ensures
      var (added, after) := Parsed(Status(BODY, false, s[Cut(s, d)..] + data), d);
      Delivered(s, d) + added == Delivered(s + data, d) && after == StatusOf(s + data, d)
  {
    BodyArrives(s, data, d, Cut(s, d));
  }

  lemma ParsedAtBoundary(s: Bytes, data: Bytes, d: Bytes, k: nat, rest: Bytes)
    requires d != [] && FindFirst(s, d, 0) < |s| && k == Cut(s, d) && rest == s[k + |d|..]
    ensures StatusOf(s + data, d) == AtBoundary(rest + data, false) && Delivered(s + data, d) == Delivered(s, d)
  {
    BoundaryArrives(s, data, d, k);
    assert (s + data)[k + |d|..] == rest + data;
  }

  /** Until a message is closed, one call more leads to the status of the longer body. */
  lemma ParsedIsStatus(s: Bytes, data: Bytes, d: Bytes, st: Status)
    requires d != [] && st == StatusOf(s, d) && !st.isValid && st.state != NEW_ENTRY
    ensures
      var (added, after) := Parsed(st.(window := st.window + data), d);
      Delivered(s, d) + added == Delivered(s + data, d) && after == StatusOf(s + data, d)
  {
    if FindFirst(s, d, 0) < |s| {
      var rest := s[Cut(s, d) + |d|..];
      ParsedAtBoundary(s, data, d, Cut(s, d), rest);
      StaysAtBoundary(rest, st);
      assert Delivered(s, d) + [] == Delivered(s, d);
    } else {
      ParsedInBody(s, data, d);
    }
  }

  /** What the parser owes to the bytes `seen`: until the message is closed, everything. */
  ghost predicate Tracks(st: Status, content: Bytes, seen: Bytes, d: Bytes)
    requires d != []
  {
    && content == Delivered(seen, d)
    && if st.isValid then st.state != BODY && FindFirst(seen, d, 0) < |seen| else st == StatusOf(seen, d)
  }

  predicate IsState(n: nat) { n == BODY || n == BOUNDARY || n == NEW_ENTRY }

  lemma StillTracks(st: Status, content: Bytes, seen: Bytes, data: Bytes, d: Bytes)
    requires d != [] && Tracks(st, content, seen, d) && (st.state == BODY || st.state == BOUNDARY)
    ensures
      var (added, after) := Parsed(st.(window := st.window + data), d);
      Tracks(after, content + added, seen + data, d) && IsState(after.state)
  {
    if st.isValid {
      BoundaryArrives(seen, data, d, Cut(seen, d));
      assert content + [] == content;
    } else {
      ParsedIsStatus(seen, data, d, st);
      if FindFirst(seen, d, 0) < |seen| { BoundaryArrives(seen, data, d, Cut(seen, d)); }
    }
  }

  // ---- any number of calls -----------------------------------------------------------------

  const START := Status(BODY, false, [])

  /** One more call, unless a new entry has begun. */
  function Call(run: (Status, Bytes), data: Bytes, d: Bytes): (r: (Status, Bytes))
    requires d != []
  {
    var (st, content) := run;
    if st.state == NEW_ENTRY then run
    else
      var (added, after) := Parsed(st.(window := st.window + data), d);
      (after, content + added)
  }

  /** One call after the other: what the parser is left with, and what it has handed out. */
  function Feed(chunks: seq<Bytes>, d: Bytes): (r: (Status, Bytes))
    requires d != []
  {
    if chunks == [] then (START, []) else Call(Feed(chunks[..|chunks| - 1], d), chunks[|chunks| - 1], d)
  }

  /** What holds after any number of calls with `seen` in all. */
  ghost predicate OnTrack(run: (Status, Bytes), seen: Bytes, d: Bytes)
    requires d != []
  {
    && IsState(run.0.state)
    && if run.0.state == NEW_ENTRY then run.1 == Delivered(seen, d) && FindFirst(seen, d, 0) < |seen|
       else Tracks(run.0, run.1, seen, d)
  }

  lemma CallStaysOnTrack(run: (Status, Bytes), seen: Bytes, data: Bytes, d: Bytes)
    requires d != [] && OnTrack(run, seen, d)
    ensures OnTrack(Call(run, data, d), seen + data, d)
  {
    if run.0.state == NEW_ENTRY {
      BoundaryArrives(seen, data, d, Cut(seen, d));
    } else {
      StillTracks(run.0, run.1, seen, data, d);
    }
  }

  lemma {:induction false} FeedIsOnTrack(chunks: seq<Bytes>, d: Bytes)
    requires d != []
    ensures OnTrack(Feed(chunks, d), Concat(chunks), d)
  {
    if chunks == [] {
      NoMatch([], d);
    } else {
      var front, last := chunks[..|chunks| - 1], chunks[|chunks| - 1];
      FeedIsOnTrack(front, d);
      ConcatSnoc(front, last, chunks);
      CallStaysOnTrack(Feed(front, d), Concat(front), last, d);
    }
  }

  /** However the bytes of a body are split over the calls, the same content is handed out. */
  lemma ChunkingDoesNotMatter(chunks: seq<Bytes>, d: Bytes)
    requires d != []
    ensures Feed(chunks, d).1 == Delivered(Concat(chunks), d)
  {
    FeedIsOnTrack(chunks, d);
  }

  lemma FirstCall(window: Bytes, d: Bytes)
    requires d != []
    ensures
      var (added, after) := Parsed(START.(window := window), d);
      Feed([window], d) == (after, added)
  {
    var none: Bytes, chunks := [], [window];
    assert none + window == window;
    assert forall a: Bytes :: none + a == a;
    assert |chunks[..0]| == 0 && Feed(chunks[..0], d) == (START, none);
    assert Feed(chunks, d) == Call((START, none), window, d);
  }

  class MultipartFormDataParser {
    const crlfDashBoundary: Bytes
    var state: nat
    var isValid: bool
    var buf: Bytes
    var bufSpos: nat
    var bufEpos: nat

    ghost var content: Bytes  // what `content_callback` has been given for this part
    ghost var seen: Bytes  // what `parse` has been given since the part's body began

    ghost predicate WindowValid()
      reads this
    {
      bufSpos <= bufEpos <= |buf| && crlfDashBoundary != []
    }

    function Window(): (s: Bytes)
      requires WindowValid()
      reads this
    {
      buf[bufSpos..bufEpos]
    }

    function Current(): (st: Status)
      requires WindowValid()
      reads this
    {
      Status(state, isValid, Window())
    }

    ghost predicate Valid()
      reads this
    {
      WindowValid() && Tracks(Current(), content, seen, crlfDashBoundary)
    }

    /** The parser as the headers of a part end, with nothing else in the window. */
    constructor (boundary: Bytes)
      ensures Valid() && seen == content == [] && state == BODY && !isValid
      ensures crlfDashBoundary == CRLF + DASH + boundary
    {
      crlfDashBoundary := CRLF + DASH + boundary;
      state, isValid, buf, bufSpos, bufEpos, content, seen := BODY, false, [], 0, 0, [], [];
    }

    method BufStartWith(spos: nat, s: Bytes) returns (r: bool)
      requires WindowValid() && bufSpos <= spos <= bufEpos
      ensures r <==> MatchAt(buf[spos..bufEpos], 0, s)
    {
      if bufEpos - spos < |s| {
        return false;
      }
      for i := 0 to |s|
        invariant forall j :: 0 <= j < i ==> buf[spos + j] == s[j]
      {
        if buf[i + spos] != s[i] {
          assert buf[spos..bufEpos][..|s|][i] != s[i];
          return false;
        }
      }
      assert buf[spos..bufEpos][..|s|] == s;
      return true;
    }

    lemma MatchInWindow(pos: nat, s: Bytes)
      requires WindowValid() && bufSpos <= pos <= bufEpos
      ensures MatchAt(buf[pos..bufEpos], 0, s) <==> MatchAt(Window(), pos - bufSpos, s)
    {
      if |s| <= bufEpos - pos {
        assert buf[pos..bufEpos][..|s|] == Window()[pos - bufSpos..pos - bufSpos + |s|];
      }
    }

    method BufFind(s: Bytes) returns (k: nat)
      requires WindowValid() && s != []
      ensures k == FindFirst(Window(), s, 0)
    {
      var c := s[0];
      var off := bufSpos;
      while off < bufEpos
        invariant bufSpos <= off <= bufEpos
        invariant forall j {:trigger MatchAt(Window(), j, s)} :: 0 <= j < off - bufSpos ==> !MatchAt(Window(), j, s)
      {
        var pos := off;
        while pos < bufEpos && buf[pos] != c
          invariant off <= pos <= bufEpos
          invariant forall j {:trigger MatchAt(Window(), j, s)} :: 0 <= j < pos - bufSpos ==> !MatchAt(Window(), j, s)
        {
          assert !MatchAt(Window(), pos - bufSpos, s) by {
            assert Window()[pos - bufSpos] == buf[pos];
          }
          pos := pos + 1;
        }
        if pos == bufEpos || |s| > bufEpos - pos {
          NoMatch(Window(), s);
          return bufEpos - bufSpos;
        }
        MatchInWindow(pos, s);
        var found := BufStartWith(pos, s);
        if found {
          FirstIsFirst(Window(), s, pos - bufSpos);
          return pos - bufSpos;
        }
        off := pos + 1;
      }
      NoMatch(Window(), s);
      return bufEpos - bufSpos;
    }

    method BufAppend(data: Bytes)
      requires WindowValid()
      modifies this`buf, this`bufSpos, this`bufEpos
      ensures WindowValid() && Window() == old(Window()) + data
    {
      MoveToFront();
      ghost var window := Window();
      if bufEpos + |data| > |buf| {
        buf := buf + Repeat(0, bufEpos + |data| - |buf|);
      }
      for i := 0 to |data|
        invariant bufSpos == 0 && bufEpos == |window| && bufEpos + |data| <= |buf|
        invariant forall j :: 0 <= j < bufEpos ==> buf[j] == window[j]
        invariant forall j :: 0 <= j < i ==> buf[bufEpos + j] == data[j]
      {
        buf := buf[bufEpos + i := data[i]];
      }
      bufEpos := bufEpos + |data|;
    }

    method MoveToFront()
      requires WindowValid()
      modifies this`buf, this`bufSpos, this`bufEpos
      ensures WindowValid() && Window() == old(Window()) && bufSpos == 0
    {
      var remainingSize := bufEpos - bufSpos;
      if remainingSize > 0 && bufSpos > 0 {
        for i := 0 to remainingSize
          invariant bufSpos == old(bufSpos) && bufEpos == old(bufEpos) && |buf| == |old(buf)|
          invariant forall j :: 0 <= j < i ==> buf[j] == old(buf)[bufSpos + j]
          invariant forall j :: bufSpos + i <= j < |buf| ==> buf[j] == old(buf)[j]
        {
          buf := buf[i := buf[bufSpos + i]];
        }
      }
      bufSpos, bufEpos := 0, remainingSize;
    }

    method BufErase(size: nat)
      requires WindowValid() && size <= |Window()|
      modifies this`bufSpos
      ensures WindowValid() && Window() == old(Window())[size..]
    {
      bufSpos := bufSpos + size;
    }

    /** `parse` in the states 3 and 4; a new entry, with its headers, is not part of this model. A receiver that
        refuses has been given the content all the same, and the window keeps it. */
    method Parse(data: Bytes, out: Receiver) returns (ok: bool)
      requires Valid() && (state == BODY || state == BOUNDARY) && !out.refuses
      modifies this, out
      ensures ok <==> !out.refuses
      ensures ok ==> Valid() && seen == old(seen) + data && old(content) <= content
      ensures
        var st := old(Current()).(window := old(Window()) + data);
        var (added, after) := Parsed(st, crlfDashBoundary);
        && WindowValid() && content == old(content) + added && out.content == old(out.content) + added
        && Current() == if ok then after else st.(isValid := false)
      ensures !ok ==> old(state) == BODY
    {
      StillTracks(Current(), content, seen, data, crlfDashBoundary);
      seen := seen + data;
      BufAppend(data);
      ParseWindow(out);
      ok := !out.refuses;
    }

    /** The loop of `parse`. */
    method ParseWindow(out: Receiver)
      requires WindowValid() && (state == BODY || state == BOUNDARY) && !out.refuses
      modifies this`state, this`isValid, this`content, this`bufSpos, out
      ensures WindowValid() && (out.refuses ==> old(state) == BODY)
      ensures
        var (added, after) := Parsed(old(Current()), crlfDashBoundary);
        && content == old(content) + added && out.content == old(out.content) + added
        && Current() == if out.refuses then old(Current()).(isValid := false) else after
    {
      var waiting := false;
      ghost var (added, after) := Parsed(Current(), crlfDashBoundary);
      assert content + [] == content && out.content + [] == out.content;
      while !waiting && bufSpos < bufEpos && state != NEW_ENTRY
        invariant WindowValid() && IsState(state) && (out.refuses ==> waiting && old(state) == BODY)
        invariant
          if state == BODY && !waiting then
            content == old(content) && out.content == old(out.content) && Current() == old(Current())
          else
            && content == old(content) + added && out.content == old(out.content) + added
            && if out.refuses then Current() == old(Current()).(isValid := false)
               else after == if state == BOUNDARY && !waiting then AtBoundary(Window(), isValid) else Current()
        decreases !waiting, if state == BODY then 1 else 0, bufEpos - bufSpos
      {
        waiting := ParseState(out);
      }
    }

    /** One turn of the loop. */
    method ParseState(out: Receiver) returns (waiting: bool)
      requires WindowValid() && (state == BODY || state == BOUNDARY) && !out.refuses
      modifies this`state, this`isValid, this`content, this`bufSpos, out
      ensures WindowValid() && IsState(state) && (state == BODY ==> waiting)
      ensures out.refuses ==> waiting && old(state) == BODY
      ensures
        var (added, after) := Parsed(old(Current()), crlfDashBoundary);
        && content == old(content) + added && out.content == old(out.content) + added
        && if out.refuses then Current() == old(Current()).(isValid := false)
           else after == if state == BOUNDARY && !waiting then AtBoundary(Window(), isValid) else Current()
      ensures old(state) == BOUNDARY && !waiting ==> bufEpos - bufSpos < old(bufEpos - bufSpos)
    {
      assert content + [] == content && out.content + [] == out.content;
      if state == BODY {
        waiting := ParseBody(out);
      } else {
        waiting := ParseBoundary();
      }
    }

    /** State 3. */
    method ParseBody(out: Receiver) returns (waiting: bool)
      requires WindowValid() && state == BODY && !out.refuses
      modifies this`state, this`isValid, this`content, this`bufSpos, out
      ensures WindowValid() && state == (if waiting then BODY else BOUNDARY) && (out.refuses ==> waiting)
      ensures isValid == (!out.refuses && old(isValid))
      ensures
        var (added, rest, found) := AtBody(old(Window()), crlfDashBoundary);
        && content == old(content) + added && out.content == old(out.content) + added
        && if out.refuses then Window() == old(Window()) else Window() == rest && waiting == !found
    {
      var d := crlfDashBoundary;
      var size := bufEpos - bufSpos;
      assert content + [] == content && out.content + [] == out.content;
      if |d| > size {
        return true;
      }
      var pos := BufFind(d);
      if pos < size {
        content := content + Window()[..pos];
        var more := out.Take(Window()[..pos]);
        if !more {
          isValid := false;
          return true;
        }
        BufErase(pos + |d|);
        state := BOUNDARY;
        return false;
      }
      var len := size - |d|;
      if len > 0 {
        content := content + Window()[..len];
        var more := out.Take(Window()[..len]);
        if !more {
          isValid := false;
          return true;
        }
        BufErase(len);
      }
      return true;
    }

    /** State 4. */
    method ParseBoundary() returns (waiting: bool)
      requires WindowValid() && state == BOUNDARY
      modifies this`state, this`isValid, this`bufSpos
      ensures WindowValid() && (state == BOUNDARY || state == NEW_ENTRY)
      ensures Current() == AtBoundary(old(Window()), old(isValid))
      ensures !waiting ==> |Window()| < |old(Window())|
    {
      if 2 > bufEpos - bufSpos {
        return true;
      }
      assert buf[bufSpos..bufEpos] == Window();
      var another := BufStartWith(bufSpos, CRLF);
      if another {
        BufErase(2);
        state := NEW_ENTRY;
        return false;
      }
      var closing := BufStartWith(bufSpos, DASH);
      if closing {
        BufErase(2);
        isValid := true;
        BufErase(bufEpos - bufSpos);
      }
      return !closing;
    }
  }
}
