/** What follows the delimiter of a part: the status of the parser for every way of cutting the bytes over the calls
    of `parse`, until a new entry begins (httplib.h:4776-4820). */
module Entries {
  import opened ByteStrings
  import opened Multipart

  /** The status once `seen` has arrived, in terms of the bytes alone. */
  predicate Follows(st: Status, seen: Bytes, d: Bytes)
    requires d != []
  {
    var k := FindFirst(seen, d, 0);
    if k == |seen| then
      st == Status(3, false, if |seen| >= |d| then seen[|seen| - |d|..] else seen)
    else AfterDelimiter(st, seen[k + |d|..])
  }

  /** The status after a delimiter that the bytes `after` follow. */
  predicate AfterDelimiter(st: Status, after: Bytes)
  {
    if |after| >= 2 && after[..2] == [13, 10] then st.state == 1 && !st.isValid && st.window <= after[2..]
    else if |after| >= 2 && after[..2] == [45, 45] then st.isValid
    else st == Status(4, false, after)
  }

  /** A line end begins an entry and leaves what follows it, two dashes close the message and leave nothing, and
      whatever else is kept. */
  lemma AtBoundaryExactly(window: Bytes, valid: bool)
    ensures
      AtBoundary(window, valid) ==
      if |window| >= 2 && window[0] == 13 && window[1] == 10 then Status(1, valid, window[2..])
      else if |window| >= 2 && window[0] == 45 && window[1] == 45 then Status(4, true, [])
      else Status(4, valid, window)
  {
    assert |window| >= 2 && CRLF <= window ==> window[..2] == CRLF;
    assert |window| >= 2 && DASH <= window ==> window[..2] == DASH;
  }

  lemma StatusFollows(seen: Bytes, d: Bytes)
    requires d != []
    ensures Follows(StatusOf(seen, d), seen, d)
  {
    var k := FindFirst(seen, d, 0);
    if k < |seen| {
      var after := seen[k + |d|..];
      AtBoundaryExactly(after, false);
      assert |after| >= 2 ==> after[..2][0] == after[0] && after[..2][1] == after[1];
    } else if |seen| < |d| {
      assert seen[0..] == seen;
    }
  }

  /** What has arrived so far may still go on: neither closed nor a new entry. */
  predicate Open(seen: Bytes, d: Bytes)
    requires d != []
  {
    var k := FindFirst(seen, d, 0);
    k == |seen| || |seen| < k + |d| + 2
    || (seen[k + |d|..][..2] != [13, 10] && seen[k + |d|..][..2] != [45, 45])
  }

  lemma OpenIsStatus(st: Status, seen: Bytes, d: Bytes)
    requires d != [] && Follows(st, seen, d) && Open(seen, d)
    ensures st == StatusOf(seen, d) && !st.isValid && st.state != NEW_ENTRY
  {
    StatusFollows(seen, d);
  }

  lemma MoreAfter(seen: Bytes, data: Bytes, d: Bytes)
    requires d != [] && !Open(seen, d)
    ensures !Open(seen + data, d)
    ensures
      var k := FindFirst(seen, d, 0);
      FindFirst(seen + data, d, 0) == k && (seen + data)[k + |d|..] == seen[k + |d|..] + data
  {
    var k := FindFirst(seen, d, 0);
    BoundaryArrives(seen, data, d, k);
    assert (seen[k + |d|..] + data)[..2] == seen[k + |d|..][..2];
  }

  lemma CallFollows(run: (Status, Bytes), seen: Bytes, data: Bytes, d: Bytes)
    requires d != [] && Follows(run.0, seen, d)
    requires run.0.state == NEW_ENTRY || run.0.state == BOUNDARY || Open(seen, d)
    ensures Follows(Call(run, data, d).0, seen + data, d)
    ensures Open(seen, d) ==> Call(run, data, d).0 == StatusOf(seen + data, d)
  {
    if Open(seen, d) {
      OpenIsStatus(run.0, seen, d);
      ParsedIsStatus(seen, data, d, run.0);
      StatusFollows(seen + data, d);
    } else {
      MoreAfter(seen, data, d);
      var k := FindFirst(seen, d, 0);
      var after := seen[k + |d|..];
      assert (after + data)[..2] == after[..2];
      if after[..2] == [13, 10] { assert (after + data)[2..] == after[2..] + data; }
    }
  }

  lemma {:induction false} FeedFollows(chunks: seq<Bytes>, d: Bytes)
    requires d != []
    ensures Follows(Feed(chunks, d).0, Concat(chunks), d)
  {
    if chunks == [] {
      NoMatch([], d);
    } else {
      var front, last := chunks[..|chunks| - 1], chunks[|chunks| - 1];
      FeedFollows(front, d);
      FeedIsOnTrack(front, d);
      ConcatSnoc(front, last, chunks);
      CallFollows(Feed(front, d), Concat(front), last, d);
    }
  }

  /** The delimiter has been seen, and a line end after it. */
  predicate EntryIn(s: Bytes, d: Bytes)
    requires d != []
  {
    var k := FindFirst(s, d, 0);
    k + |d| + 2 <= |s| && s[k + |d|..][..2] == [13, 10]
  }

  lemma StillOpenBefore(run: (Status, Bytes), seen: Bytes, data: Bytes, d: Bytes)
    requires d != [] && Follows(run.0, seen, d) && run.0.state != 1 && EntryIn(seen + data, d)
    ensures Open(seen, d)
  {
    if !Open(seen, d) { MoreAfter(seen, data, d); }
  }

  lemma StatusAtEntry(s: Bytes, d: Bytes, window: Bytes)
    requires d != [] && EntryIn(s, d) && window == s[FindFirst(s, d, 0) + |d| + 2..]
    ensures StatusOf(s, d) == Status(1, false, window)
    ensures s == Delivered(s, d) + d + [13, 10] + window
  {
    var k := FindFirst(s, d, 0);
    var after := s[k + |d|..];
    AtBoundaryExactly(after, false);
    assert after[0] == after[..2][0] && after[1] == after[..2][1] && after[2..] == window;
    Pieces(s, k, |d|, 2);
    assert s[k..k + |d|] == d && s[k + |d|..k + |d| + 2] == after[..2];
  }

  lemma Pieces(s: Bytes, k: nat, m: nat, n: nat)
    requires k + m + n <= |s|
    ensures s[..k] + s[k..k + m] + s[k + m..k + m + n] + s[k + m + n..] == s
  {
  }

  lemma OpenTillEntry(chunks: seq<Bytes>, d: Bytes)
    requires d != [] && chunks != [] && Feed(chunks[..|chunks| - 1], d).0.state != 1 && EntryIn(Concat(chunks), d)
    ensures Feed(chunks, d).0 == StatusOf(Concat(chunks), d)
  {
    var front, last := chunks[..|chunks| - 1], chunks[|chunks| - 1];
    FeedFollows(front, d);
    ConcatSnoc(front, last, chunks);
    StillOpenBefore(Feed(front, d), Concat(front), last, d);
    CallFollows(Feed(front, d), Concat(front), last, d);
  }

  /** However the bytes of a part are cut, the call that brings the line end after the delimiter begins a new entry,
      exactly what follows the line end is left for it, and the message is not valid yet. */
  lemma EntryGetsTheRest(chunks: seq<Bytes>, d: Bytes)
    requires d != [] && chunks != [] && Feed(chunks[..|chunks| - 1], d).0.state != 1 && EntryIn(Concat(chunks), d)
    ensures
      var (st, content) := Feed(chunks, d);
      st.state == 1 && !st.isValid && Concat(chunks) == content + d + [13, 10] + st.window
  {
    var s := Concat(chunks);
    OpenTillEntry(chunks, d);
    ChunkingDoesNotMatter(chunks, d);
    StatusAtEntry(s, d, s[FindFirst(s, d, 0) + |d| + 2..]);
  }

  /** A new entry has begun, and the message was not closed before, if and only if the delimiter has arrived and a
      line end follows it. */
  lemma EntryExactly(chunks: seq<Bytes>, d: Bytes)
    requires d != []
    ensures
      var st := Feed(chunks, d).0;
      st.state == 1 && !st.isValid <==> EntryIn(Concat(chunks), d)
  {
    FeedFollows(chunks, d);
  }

  /** The message is closed if and only if two dashes follow the delimiter. */
  lemma ClosedExactly(chunks: seq<Bytes>, d: Bytes)
    requires d != []
    ensures
      var s := Concat(chunks);
      var k := FindFirst(s, d, 0);
      Feed(chunks, d).0.isValid <==> k + |d| + 2 <= |s| && s[k + |d|..][..2] == [45, 45]
  {
    FeedFollows(chunks, d);
  }
}
