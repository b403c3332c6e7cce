/** What follows the closing delimiter of a multipart message: where the split over the calls of `parse`
    matters, and where it does not (httplib.h:4801-4820). */
module Epilogue {
  import opened ByteStrings
  import opened Multipart

  // ---- after the close ------------------------------------------------------------------------

  predicate CrlfAt(e: Bytes, k: nat) { MatchAt(e, k, CRLF) }

  /** A line end comes first, or somewhere behind two leading dashes. */
  ghost predicate Reopens(e: Bytes)
  {
    CRLF <= e || (DASH <= e && exists k: nat :: 2 <= k && CrlfAt(e, k))
  }

  lemma ReopensStays(e: Bytes, more: Bytes)
    requires Reopens(e)
    ensures Reopens(e + more)
  {
    if !(CRLF <= e) {
      var k: nat :| 2 <= k && CrlfAt(e, k);
      MatchGrows(e, more, k, CRLF);
      assert CrlfAt(e + more, k);
    }
  }

  /** Of the epilogue `e`, what is left in the window: all of it, or all but two bytes and more that the
      code has thrown away with two leading dashes. */
  predicate Tail(window: Bytes, e: Bytes)
  {
    && |window| <= |e| && e[|e| - |window|..] == window
    && (window == e || (DASH <= e && |window| + 2 <= |e|))
  }

  /** The status after the epilogue bytes `e`. */
  ghost predicate AfterClose(st: Status, e: Bytes)
  {
    st.isValid && if st.state == NEW_ENTRY then Reopens(e) else st.state == BOUNDARY && Tail(st.window, e)
  }

  lemma WindowStarts(window: Bytes, e: Bytes)
    requires Tail(window, e) && CRLF <= window
    ensures Reopens(e)
  {
    if window != e {
      var k := |e| - |window|;
      assert e[k..][..2] == e[k..k + 2] == CRLF;
      assert CrlfAt(e, k);
    }
  }

  lemma TailGrows(window: Bytes, e: Bytes, data: Bytes)
    requires Tail(window, e)
    ensures Tail(window + data, e + data)
  {
    var m := |e| - |window|;
    assert (e + data)[m..] == e[m..] + data;
    if window == e {
      assert window + data == e + data;
    }
  }

  lemma ClosedCall(st: Status, e: Bytes, data: Bytes)
    requires AfterClose(st, e) && st.state == BOUNDARY
    ensures AfterClose(AtBoundary(st.window + data, true), e + data)
  {
    var window := st.window + data;
    TailGrows(st.window, e, data);
    if |window| >= 2 {
      if CRLF <= window {
        WindowStarts(window, e + data);
      } else if DASH <= window {
        assert Tail([], e + data);
      }
    }
  }

  function FeedAfter(first: Bytes, chunks: seq<Bytes>, d: Bytes): (r: (Status, Bytes))
    requires d != []
  {
    Feed([first] + chunks, d)
  }

  lemma FeedSnoc(first: Bytes, front: seq<Bytes>, last: Bytes, d: Bytes)
    requires d != []
    ensures FeedAfter(first, front + [last], d) == Call(FeedAfter(first, front, d), last, d)
  {
    assert ([first] + (front + [last]))[..1 + |front|] == [first] + front;
  }

  lemma CallAfterClose(run: (Status, Bytes), e: Bytes, data: Bytes, d: Bytes)
    requires d != [] && AfterClose(run.0, e)
    ensures AfterClose(Call(run, data, d).0, e + data)
  {
    if run.0.state == NEW_ENTRY {
      ReopensStays(e, data);
    } else {
      ClosedCall(run.0, e, data);
    }
  }

  lemma ClosedAlone(d: Bytes)
    requires d != []
    ensures Feed([d + DASH], d).0 == Status(BOUNDARY, true, [])
  {
    var window := [] + d + DASH + [];
    assert window == d + DASH && window[..|d|] == d;
    assert MatchAt(window, 0, d);
    Closing([], [], d);
  }

  lemma {:induction false} EpilogueIsTracked(chunks: seq<Bytes>, d: Bytes)
    requires d != []
    ensures AfterClose(FeedAfter(d + DASH, chunks, d).0, Concat(chunks))
  {
    if chunks == [] {
      assert [d + DASH] + chunks == [d + DASH];
      ClosedAlone(d);
    } else {
      var front, last := chunks[..|chunks| - 1], chunks[|chunks| - 1];
      EpilogueIsTracked(front, d);
      assert chunks == front + [last];
      FeedSnoc(d + DASH, front, last, d);
      ConcatSnoc(front, last, chunks);
      CallAfterClose(FeedAfter(d + DASH, front, d), Concat(front), last, d);
    }
  }

  lemma Closing(content: Bytes, rest: Bytes, d: Bytes)
    requires d != [] && FindFirst(content + d + DASH + rest, d, 0) == |content|
    ensures Feed([content + d + DASH + rest], d).0 == Status(BOUNDARY, true, [])
  {
    ClosingWindow(content + d + DASH + rest, content, rest, d);
    FirstCall(content + d + DASH + rest, d);
  }

  lemma ClosingWindow(window: Bytes, content: Bytes, rest: Bytes, d: Bytes)
    requires d != [] && window == content + d + DASH + rest && FindFirst(window, d, 0) == |content|
    ensures Parsed(START.(window := window), d).1 == Status(BOUNDARY, true, [])
  {
    assert window[|content| + |d|..] == DASH + rest;
    assert AtBody(window, d).1 == DASH + rest;
    assert (DASH + rest)[..2] == DASH && (DASH + rest)[0] == 45;
    assert AtBoundary(DASH + rest, false) == Status(BOUNDARY, true, []);
  }

  // ---- the epilogue in calls of its own ----------------------------------------------------------

  /** Cut like this, the epilogue `e` begins a new entry. */
  ghost predicate CutReopens(chunks: seq<Bytes>, e: Bytes, d: Bytes)
    requires d != []
  {
    Concat(chunks) == e && FeedAfter(d + DASH, chunks, d).0.state == NEW_ENTRY
  }

  lemma TwoChunks(a: Bytes, b: Bytes)
    ensures Concat([a, b]) == a + b && Concat([a]) == a
  {
    var none: Bytes, one, two := [], [b], [a, b];
    assert Concat(one[1..]) == none && b + none == b && a + none == a;
    assert Concat([a][1..]) == none && two[1..] == one;
  }

  lemma AfterFirst(first: Bytes, a: Bytes, d: Bytes)
    requires d != []
    ensures FeedAfter(first, [a], d) == Call(Feed([first], d), a, d)
    ensures forall b :: FeedAfter(first, [a, b], d) == Call(FeedAfter(first, [a], d), b, d)
  {
    var none: seq<Bytes> := [];
    FeedSnoc(first, none, a, d);
    assert none + [a] == [a] && [first] + none == [first];
    forall b ensures FeedAfter(first, [a, b], d) == Call(FeedAfter(first, [a], d), b, d) {
      FeedSnoc(first, [a], b, d);
      assert [a] + [b] == [a, b];
    }
  }

  lemma ClosedThen(data: Bytes, d: Bytes, run: (Status, Bytes))
    requires d != [] && run.0 == Status(BOUNDARY, true, [])
    ensures CRLF <= data ==> Call(run, data, d).0.state == NEW_ENTRY
    ensures DASH <= data ==> Call(run, data, d).0 == Status(BOUNDARY, true, [])
  {
    var window := run.0.window + data;
    assert window == data;
    if DASH <= data {
      assert window[..2] == DASH && window[0] == 45;
      var (added, after) := Parsed(run.0.(window := window), d);
      assert after == AtBoundary(window, true) == Status(BOUNDARY, true, []);
      assert Call(run, data, d) == (after, run.1 + added);
    }
  }

  lemma OneCutReopens(e: Bytes, d: Bytes)
    requires d != [] && CRLF <= e
    ensures CutReopens([e], e, d)
  {
    ClosedAlone(d);
    TwoChunks(e, []);
    AfterFirst(d + DASH, e, d);
    ClosedThen(e, d, Feed([d + DASH], d));
  }

  lemma TwoCutsReopen(e: Bytes, k: nat, d: Bytes)
    requires d != [] && DASH <= e && 2 <= k && CrlfAt(e, k)
    ensures CutReopens([e[..k], e[k..]], e, d)
  {
    var a, b := e[..k], e[k..];
    assert a + b == e && b[..2] == e[k..k + 2] && a[..2] == e[..2];
    ClosedAlone(d);
    TwoChunks(a, b);
    AfterFirst(d + DASH, a, d);
    ClosedThen(a, d, Feed([d + DASH], d));
    ClosedThen(b, d, FeedAfter(d + DASH, [a], d));
  }

  /** Some way of cutting the epilogue begins a new entry if and only if it starts with a line end, or with
      two dashes that a line end follows somewhere. */
  lemma EpilogueReopensExactly(e: Bytes, d: Bytes)
    requires d != []
    ensures (exists chunks :: CutReopens(chunks, e, d)) <==> Reopens(e)
  {
    if CRLF <= e {
      OneCutReopens(e, d);
    } else if Reopens(e) {
      var k: nat :| 2 <= k && CrlfAt(e, k);
      TwoCutsReopen(e, k, d);
    }
    forall chunks | CutReopens(chunks, e, d) ensures Reopens(e) {
      EpilogueIsTracked(chunks, d);
    }
  }

  /** An ordinary line end after the message: in one call with the delimiter it is dropped, in a call of its
      own, or in two, it begins a new entry. */
  lemma EpilogueDependsOnChunking(d: Bytes)
    requires d != []
    ensures Feed([d + DASH + CRLF], d).0 == Status(BOUNDARY, true, [])
    ensures FeedAfter(d + DASH, [CRLF], d).0.state == NEW_ENTRY
    ensures FeedAfter(d + DASH, [[13], [10]], d).0.state == NEW_ENTRY
  {
    var window := [] + d + DASH + CRLF;
    assert window == d + DASH + CRLF && window[..|d|] == d;
    assert MatchAt(window, 0, d);
    Closing([], CRLF, d);
    ClosedAlone(d);
    AfterFirst(d + DASH, CRLF, d);
    ClosedThen(CRLF, d, Feed([d + DASH], d));
    AfterFirst(d + DASH, [13], d);
    var none: Bytes, cr: Bytes := [], [13];
    assert cr + [10] == CRLF && none + cr == cr;
  }

  // ---- the whole message ------------------------------------------------------------------------

  /** The status when `seen` has arrived of a message whose closing delimiter ends at `p`. */
  ghost predicate Ending(st: Status, seen: Bytes, p: nat, d: Bytes)
    requires d != []
  {
    if !st.isValid then st == StatusOf(seen, d) && st.state != NEW_ENTRY
    else if st.state == NEW_ENTRY then exists k: nat :: p <= k && CrlfAt(seen, k)
    else st.state == BOUNDARY && |st.window| + p <= |seen| && seen[|seen| - |st.window|..] == st.window
  }

  lemma ClosedCallEnds(st: Status, seen: Bytes, data: Bytes, p: nat, d: Bytes)
    requires d != [] && st.isValid && st.state == BOUNDARY && Ending(st, seen, p, d)
    ensures Ending(AtBoundary(st.window + data, true), seen + data, p, d)
  {
    var window, all := st.window + data, seen + data;
    var k := |all| - |window|;
    assert all[k..] == seen[k..] + data == window;
    if |window| >= 2 && CRLF <= window {
      assert all[k..][..2] == all[k..k + 2] == CRLF;
      assert CrlfAt(all, k);
    }
  }

  lemma OpenCallEnds(st: Status, seen: Bytes, data: Bytes, content: Bytes, rest: Bytes, d: Bytes)
    requires d != [] && FindFirst(content + d + DASH + rest, d, 0) == |content|
    requires !st.isValid && st == StatusOf(seen, d) && st.state != NEW_ENTRY
    requires seen + data <= content + d + DASH + rest
    ensures Ending(Parsed(st.(window := st.window + data), d).1, seen + data, |content| + |d| + 2, d)
  {
    var all, whole := seen + data, content + d + DASH + rest;
    ParsedIsStatus(seen, data, d, st);
    StatusOfPrefix(all, content, rest, d);
  }

  lemma DashesFollow(whole: Bytes, front: Bytes, rest: Bytes, all: Bytes, p: nat)
    requires whole == front + DASH + rest && all <= whole && p == |front| <= |all|
    ensures |all| >= p + 2 ==> all[p..][..2] == DASH && all[p..][0] == 45
  {
    assert |all| >= p + 2 ==> all[p] == whole[p] == 45 && all[p + 1] == whole[p + 1] == 45;
  }

  lemma StatusOfPrefix(all: Bytes, content: Bytes, rest: Bytes, d: Bytes)
    requires d != [] && FindFirst(content + d + DASH + rest, d, 0) == |content|
    requires all <= content + d + DASH + rest
    ensures Ending(StatusOf(all, d), all, |content| + |d| + 2, d)
  {
    var whole := content + d + DASH + rest;
    if FindFirst(all, d, 0) < |all| {
      assert whole == all + whole[|all|..];
      FirstStays(all, whole[|all|..], d);
      var p := |content| + |d|;
      var window := all[p..];
      DashesFollow(whole, content + d, rest, all, p);
      if |window| >= 2 {
        assert AtBoundary(window, false) == Status(BOUNDARY, true, []);
      }
    }
  }

  lemma CallEnds(run: (Status, Bytes), seen: Bytes, data: Bytes, content: Bytes, rest: Bytes, d: Bytes)
    requires d != [] && FindFirst(content + d + DASH + rest, d, 0) == |content|
    requires Ending(run.0, seen, |content| + |d| + 2, d) && seen + data <= content + d + DASH + rest
    ensures Ending(Call(run, data, d).0, seen + data, |content| + |d| + 2, d)
  {
    if !run.0.isValid {
      OpenCallEnds(run.0, seen, data, content, rest, d);
    } else if run.0.state == NEW_ENTRY {
      var k: nat :| |content| + |d| + 2 <= k && CrlfAt(seen, k);
      MatchGrows(seen, data, k, CRLF);
      assert CrlfAt(seen + data, k);
    } else {
      ClosedCallEnds(run.0, seen, data, |content| + |d| + 2, d);
    }
  }

  lemma {:induction false} MessageIsTracked(chunks: seq<Bytes>, content: Bytes, rest: Bytes, d: Bytes)
    requires d != [] && FindFirst(content + d + DASH + rest, d, 0) == |content|
    requires Concat(chunks) <= content + d + DASH + rest
    ensures Ending(Feed(chunks, d).0, Concat(chunks), |content| + |d| + 2, d)
  {
    if chunks == [] {
      NoMatch([], d);
    } else {
      var front, last := chunks[..|chunks| - 1], chunks[|chunks| - 1];
      ConcatSnoc(front, last, chunks);
      assert Concat(front) <= Concat(chunks);
      MessageIsTracked(front, content, rest, d);
      CallEnds(Feed(front, d), Concat(front), last, content, rest, d);
    }
  }

  /** The message is closed and stays closed. */
  predicate Closed(st: Status) { st.state == BOUNDARY && st.isValid }

  ghost predicate CutCloses(chunks: seq<Bytes>, s: Bytes, d: Bytes)
    requires d != []
  {
    Concat(chunks) == s ==> Closed(Feed(chunks, d).0)
  }

  lemma CutInEpilogue(content: Bytes, rest: Bytes, k: nat, d: Bytes) returns (chunks: seq<Bytes>)
    requires d != [] && FindFirst(content + d + DASH + rest, d, 0) == |content| && CrlfAt(rest, k)
    ensures !CutCloses(chunks, content + d + DASH + rest, d)
  {
    var a, b := content + d + DASH + rest[..k], rest[k..];
    chunks := [a, b];
    TwoChunks(a, b);
    assert a + b == content + d + DASH + rest;
    MatchGrows(a, b, |content|, d);
    assert a[|content|..|content| + |d|] == d;
    forall j | 0 <= j < |content| ensures !MatchAt(a, j, d) {
      MatchGrows(a, b, j, d);
    }
    FirstIsFirst(a, d, |content|);
    Closing(content, rest[..k], d);
    assert b[..2] == rest[k..k + 2];
    AfterFirst(a, b, d);
    assert [a] + [b] == [a, b];
    ClosedThen(b, d, Feed([a], d));
  }

  /** However a whole message is cut it ends up closed, if and only if no line end occurs in its epilogue. */
  lemma MessageClosesExactly(content: Bytes, rest: Bytes, d: Bytes)
    requires d != [] && FindFirst(content + d + DASH + rest, d, 0) == |content|
    ensures (forall chunks :: CutCloses(chunks, content + d + DASH + rest, d)) <==> forall k: nat :: !CrlfAt(rest, k)
  {
    var whole := content + d + DASH + rest;
    if k: nat :| CrlfAt(rest, k) {
      var chunks := CutInEpilogue(content, rest, k, d);
    } else {
      forall chunks ensures CutCloses(chunks, whole, d) {
        if Concat(chunks) == whole {
          MessageIsTracked(chunks, content, rest, d);
          NoLineEndNoEntry(Feed(chunks, d).0, content, rest, d);
        }
      }
    }
  }

  lemma NoLineEndNoEntry(st: Status, content: Bytes, rest: Bytes, d: Bytes)
    requires d != [] && FindFirst(content + d + DASH + rest, d, 0) == |content|
    requires Ending(st, content + d + DASH + rest, |content| + |d| + 2, d) && forall k: nat :: !CrlfAt(rest, k)
    ensures Closed(st)
  {
    var whole, p := content + d + DASH + rest, |content| + |d|;
    assert whole[p..] == DASH + rest && (DASH + rest)[..2] == DASH && (DASH + rest)[0] == 45;
    assert AtBoundary(DASH + rest, false) == Status(BOUNDARY, true, []);
    forall k: nat | p + 2 <= k ensures !CrlfAt(whole, k) {
      if k + 2 <= |whole| {
        assert whole[k..k + 2] == rest[k - p - 2..k - p];
        assert !CrlfAt(rest, k - p - 2);
      }
    }
  }
}
