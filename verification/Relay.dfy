/** One direction of the FIX proxy: append what was read, drain whole frames,
    ask the adapter about each, write what it decides. Sockets are byte
    sequences; the enabled flag and the success of a write are given per frame
    and per write. */
module Relay {
  import opened Words
  import opened Bytes
  import opened Message
  import opened Framing
  import opened Adapter

  /** The world around a relay: `enabledAt(k)` is the flag as loaded for the
      k-th frame, `writeOk(k)` whether the k-th write succeeds. */
  datatype Env = Env(policy: Policy, direction: Direction, enabledAt: nat -> bool, writeOk: nat -> bool)

  /** `Closed` after a failed write; `Crashed` after a panic. */
  datatype Status = Open | Closed | Crashed

  datatype State = State(
    buf: bytes,
    frames: seq<bytes>, // every frame drained so far
    shown: seq<bytes>,  // the frames the adapter was asked about
    writes: seq<bytes>, // one entry for each successful write
    count: u64,         // the throttle's counter
    status: Status)

  function Ask(env: Env, k: nat, count: u64, frame: bytes): (Reply, u64) {
    if env.enabledAt(k) then Intercept(env.policy, count, RawMessage(frame, env.direction))
    else (Act(Forward), count)
  }

  /** What a reply puts on the wire; an adapter error forwards. */
  function Emitted(reply: Reply, frame: bytes): seq<bytes> {
    match reply
    case Act(Drop) => []
    case Act(Mutate(m)) => [m]
    case _ => [frame]
  }

  /** One frame, already taken off the buffer. Returning drops the buffer. */
  function Deliver(env: Env, s: State, frame: bytes): (r: State)
    ensures |r.buf| <= |s.buf|
  {
    var k := |s.frames|;
    var (reply, count) := Ask(env, k, s.count, frame);
    var t := s.(frames := s.frames + [frame],
                shown := if env.enabledAt(k) then s.shown + [frame] else s.shown,
                count := count);
    var out := Emitted(reply, frame);
    if reply.Panicked? then t.(buf := [], status := Crashed)
    else if out == [] then t
    else if env.writeOk(|s.writes|) then t.(writes := s.writes + out)
    else t.(buf := [], status := Closed)
  }

  function Drain(env: Env, s: State): State
    decreases |s.buf|
  {
    if s.status != Open then s
    else
      match FindCompleteMessage(s.buf)
      case NeedMore => s
      case Malformed => s
      case Complete(n) =>
        Drain(env, Deliver(env, s.(buf := s.buf[n..]), s.buf[..n]))
      case _ => s.(buf := [], status := Crashed)
  }

  function Feed(env: Env, s: State, chunk: bytes): State {
    if s.status != Open then s else Drain(env, s.(buf := s.buf + chunk))
  }

  function FeedAll(env: Env, s: State, chunks: seq<bytes>): State
    decreases |chunks|
  {
    if chunks == [] then s else FeedAll(env, Feed(env, s, chunks[0]), chunks[1..])
  }

  predicate Fresh(s: State) {
    s.buf == [] && s.frames == [] && s.shown == [] && s.writes == [] && s.status == Open
  }

  /** Delivery neither reads nor, while it stays open, changes the buffer. */
  lemma DeliverKeepsBuffer(env: Env, s: State, b: bytes, c: bytes, frame: bytes)
    requires s.status == Open
    ensures var d, e := Deliver(env, s.(buf := b), frame), Deliver(env, s.(buf := c), frame);
            && (d.status == Open ==> e == d.(buf := c) && d.buf == b)
            && (d.status != Open ==> e == d)
  {
    hide Ask;
  }

  // ---------------------------------------------------------------------
  // Independence of how the stream was cut
  // ---------------------------------------------------------------------

  /** Draining early and then reading more is draining once at the end. */
  lemma {:induction false} DrainThenFeed(env: Env, s: State, more: bytes)
    requires s.status == Open
    requires Drain(env, s).status != Crashed
    ensures Feed(env, Drain(env, s), more) == Drain(env, s.(buf := s.buf + more))
    decreases |s.buf|
  {
    hide FindCompleteMessage, Deliver;
    if FindCompleteMessage(s.buf).Complete? {
      var n := FindCompleteMessage(s.buf).length;
      ExtensionLaw(s.buf, more);
      assert (s.buf + more)[..n] == s.buf[..n];
      assert (s.buf + more)[n..] == s.buf[n..] + more;
      var next := Deliver(env, s.(buf := s.buf[n..]), s.buf[..n]);
      DeliverKeepsBuffer(env, s, s.buf[n..], s.buf[n..] + more, s.buf[..n]);
      if next.status == Open { DrainThenFeed(env, next, more); }
    }
  }

  lemma {:induction false} FeedAllIsOneFeed(env: Env, s: State, chunks: seq<bytes>)
    requires s.status == Open && Drain(env, s) == s
    requires FeedAll(env, s, chunks).status != Crashed
    ensures FeedAll(env, s, chunks) == Drain(env, s.(buf := s.buf + Flatten(chunks)))
    decreases |chunks|
  {
    hide Drain;
    if chunks == [] {
      assert s.buf + [] == s.buf;
    } else {
      var fed := s.(buf := s.buf + chunks[0]);
      var next := Drain(env, fed);
      NotOpenStays(env, next, chunks[1..]);
      DrainThenFeed(env, fed, Flatten(chunks[1..]));
      assert s.buf + chunks[0] + Flatten(chunks[1..]) == s.buf + Flatten(chunks);
      if next.status == Open {
        DrainIsIdempotent(env, fed);
        FeedAllIsOneFeed(env, next, chunks[1..]);
      }
    }
  }

  lemma {:induction false} NotOpenStays(env: Env, s: State, chunks: seq<bytes>)
    ensures s.status != Open ==> FeedAll(env, s, chunks) == s
    decreases |chunks|
  {
    if chunks != [] { NotOpenStays(env, Feed(env, s, chunks[0]), chunks[1..]); }
  }

  lemma {:induction false} DrainIsIdempotent(env: Env, s: State)
    ensures Drain(env, Drain(env, s)) == Drain(env, s)
    decreases |s.buf|
  {
    if s.status == Open && FindCompleteMessage(s.buf).Complete? {
      var n := FindCompleteMessage(s.buf).length;
      DrainIsIdempotent(env, Deliver(env, s.(buf := s.buf[n..]), s.buf[..n]));
    }
  }

  /** Chunking independence: two cuts of the same stream, neither of which
      crashes, end in the same state: same messages shown to the adapter in
      the same order, same writes, same leftover buffer, same counter. This
      holds for any per-frame flag values and any per-write failures. */
  lemma ChunkingIndependence(env: Env, s: State, chunks: seq<bytes>, chunks': seq<bytes>)
    requires Fresh(s)
    requires Flatten(chunks) == Flatten(chunks')
    requires FeedAll(env, s, chunks).status != Crashed
    requires FeedAll(env, s, chunks').status != Crashed
    ensures FeedAll(env, s, chunks) == FeedAll(env, s, chunks')
  {
    FeedAllIsOneFeed(env, s, chunks);
    FeedAllIsOneFeed(env, s, chunks');
  }

  // ---------------------------------------------------------------------
  // Exactly which streams never crash a relay
  // ---------------------------------------------------------------------

  /** `8=` BeginString SOH at the start, and another SOH right after it. */
  predicate DoublesSoh(r: bytes) {
    && |r| >= 2 && r[..2] == [0x38, EQUALS]
    && SOH in r
    && var i := Position(r, SOH).value; i + 1 < |r| && r[i + 1] == SOH
  }

  /** At a frame boundary: the byte after BeginString's SOH is not another
      SOH, and no header declares a message longer than a `usize` can say. */
  ghost predicate SafeBoundary(r: bytes) {
    !DoublesSoh(r) && !exists begin: bytes, digits: bytes :: IsOversized(r, begin, digits)
  }

  ghost predicate Clean(stream: bytes)
    decreases |stream|
  {
    && SafeBoundary(stream)
    && (FindCompleteMessage(stream).Complete? ==> Clean(stream[FindCompleteMessage(stream).length..]))
  }

  predicate Faults(verdict: Outcome) {
    verdict.SlicePanic? || verdict.LengthOverflow?
  }

  /** A boundary is safe exactly when no prefix of it faults. */
  lemma SafeBoundaryIff(r: bytes)
    ensures SafeBoundary(r) <==> forall k :: 0 <= k <= |r| ==> !Faults(FindCompleteMessage(r[..k]))
  {
    hide FindCompleteMessage, SafeBoundary, Faults;
    if SafeBoundary(r) {
      forall k | 0 <= k <= |r| ensures !Faults(FindCompleteMessage(r[..k])) {
        SafePrefix(r, k);
      }
    } else {
      var k := FaultingCut(r);
    }
  }

  lemma SafePrefix(r: bytes, k: nat)
    requires SafeBoundary(r) && k <= |r|
    ensures !Faults(FindCompleteMessage(r[..k]))
  {
    hide FindCompleteMessage, IsOversized;
    var cut := r[..k];
    assert r == cut + r[k..];
    ExtensionLaw(cut, r[k..]);
    LengthOverflowIff(r);
    SlicePanicIff(cut);
    if FindCompleteMessage(cut) == SlicePanic {
      assert r[..2] == cut[..2];
      PositionExtends(cut, r[k..], SOH);
      assert false;
    }
  }

  lemma FaultingCut(r: bytes) returns (k: nat)
    requires !SafeBoundary(r)
    ensures k <= |r| && Faults(FindCompleteMessage(r[..k]))
  {
    hide FindCompleteMessage, IsOversized;
    LengthOverflowIff(r);
    if FindCompleteMessage(r) == LengthOverflow {
      k := |r|;
      assert r[..k] == r;
    } else {
      var i := Position(r, SOH).value;
      assert r[0] == r[..2][0] && r[1] == r[..2][1];
      k := i + 2;
      var cut := r[..k];
      assert cut[..2] == r[..2] && cut[..i] == r[..i] && cut[i] == SOH;
      PositionIs(cut, SOH, i);
      SlicePanicIff(cut);
    }
  }

  /** No panic comes from the adapter side: a frame that parses has tag 8,
      and the counter is far from its limit. */
  lemma AskDoesNotPanic(env: Env, k: nat, count: u64, buf: bytes)
    requires FindCompleteMessage(buf).Complete?
    requires count < U64_MAX
    ensures !Ask(env, k, count, buf[..FindCompleteMessage(buf).length]).0.Panicked?
    ensures Ask(env, k, count, buf[..FindCompleteMessage(buf).length]).1 <= count + 1
  {
    hide FindCompleteMessage;
    if Parse(buf[..FindCompleteMessage(buf).length]).Ok? { FramedIsSettable(buf); }
  }

  lemma DeliverDoesNotPanic(env: Env, s: State)
    requires s.status == Open && FindCompleteMessage(s.buf).Complete?
    requires s.count < U64_MAX
    ensures var n := FindCompleteMessage(s.buf).length;
            var next := Deliver(env, s.(buf := s.buf[n..]), s.buf[..n]);
            && next.status != Crashed
            && next.count <= s.count + 1
            && next.buf == (if next.status == Open then s.buf[n..] else [])
  {
    hide FindCompleteMessage, Ask;
    AskDoesNotPanic(env, |s.frames|, s.count, s.buf);
  }

  lemma {:induction false} DrainStaysClean(env: Env, s: State, rest: bytes)
    requires s.status == Open && Clean(s.buf + rest)
    requires s.count + |s.buf| <= U64_MAX
    ensures Drain(env, s).status != Crashed
    ensures Drain(env, s).status == Open ==> Clean(Drain(env, s).buf + rest)
    ensures Drain(env, s).count + |Drain(env, s).buf| <= s.count + |s.buf|
    decreases |s.buf|
  {
    hide FindCompleteMessage, Deliver, SafeBoundary;
    var all := s.buf + rest;
    assert all[..|s.buf|] == s.buf;
    SafePrefix(all, |s.buf|);
    if FindCompleteMessage(s.buf).Complete? {
      var n := FindCompleteMessage(s.buf).length;
      ExtensionLaw(s.buf, rest);
      DeliverDoesNotPanic(env, s);
      assert all[n..] == s.buf[n..] + rest;
      var next := Deliver(env, s.(buf := s.buf[n..]), s.buf[..n]);
      if next.status == Open { DrainStaysClean(env, next, rest); }
    }
  }

  lemma {:induction false} CleanNeverCrashes(env: Env, s: State, chunks: seq<bytes>)
    requires s.status == Open && Clean(s.buf + Flatten(chunks))
    requires s.count + |s.buf| + |Flatten(chunks)| <= U64_MAX
    ensures FeedAll(env, s, chunks).status != Crashed
    decreases |chunks|
  {
    hide Drain, Clean;
    if chunks != [] {
      var fed := s.(buf := s.buf + chunks[0]);
      assert s.buf + Flatten(chunks) == fed.buf + Flatten(chunks[1..]);
      DrainStaysClean(env, fed, Flatten(chunks[1..]));
      var next := Drain(env, fed);
      if next.status == Open {
        CleanNeverCrashes(env, next, chunks[1..]);
      } else {
        NotOpenStays(env, next, chunks[1..]);
      }
    }
  }

  lemma DeliverStaysOpenOrCrashes(env: Env, s: State, frame: bytes)
    requires s.status == Open && forall k :: env.writeOk(k)
    ensures Deliver(env, s, frame).status != Closed
  {
    hide Ask;
  }

  lemma {:induction false} UncleanHasBadCut(env: Env, s: State, r: bytes) returns (m: nat)
    requires s.status == Open && !Clean(r)
    requires forall k :: env.writeOk(k)
    ensures m <= |r| && Drain(env, s.(buf := r[..m])).status == Crashed
    decreases |r|
  {
    hide FindCompleteMessage, Deliver, SafeBoundary;
    if !SafeBoundary(r) {
      m := FaultingCut(r);
    } else {
      var n := FindCompleteMessage(r).length;
      var next := Deliver(env, s.(buf := []), r[..n]);
      DeliverStaysOpenOrCrashes(env, s.(buf := []), r[..n]);
      m := n;
      if next.status == Open {
        var rest := UncleanHasBadCut(env, next, r[n..]);
        m := n + rest;
        assert r[..m][n..] == r[n..][..rest];
      }
      assert r[..m][..n] == r[..n];
      CompleteIsMinimal(r, m);
      DeliverKeepsBuffer(env, s, [], r[..m][n..], r[..n]);
    }
  }

  lemma UncleanCrashes(env: Env, s: State, stream: bytes) returns (chunks: seq<bytes>)
    requires Fresh(s) && !Clean(stream)
    requires forall k :: env.writeOk(k)
    ensures Flatten(chunks) == stream && FeedAll(env, s, chunks).status == Crashed
  {
    hide Drain, Clean;
    var m := UncleanHasBadCut(env, s, stream);
    chunks := [stream[..m], stream[m..]];
    FlattenTwo(stream[..m], stream[m..]);
    assert s.buf + stream[..m] == stream[..m];
    NotOpenStays(env, Feed(env, s, stream[..m]), chunks[1..]);
  }

  lemma FlattenTwo(a: bytes, b: bytes)
    ensures Flatten([a, b]) == a + b
  {
    FlattenAppend([a], b);
    FlattenAppend([], a);
    assert [a] + [b] == [a, b] && [] + [a] == [a];
  }

  /** No way of cutting the stream crashes the relay exactly when the stream
      is clean, and a caller can decide that from the stream alone. */
  lemma NeverCrashesIff(env: Env, s: State, stream: bytes)
    requires Fresh(s)
    requires forall k :: env.writeOk(k)
    requires s.count + |stream| <= U64_MAX
    ensures (forall chunks: seq<bytes> :: Flatten(chunks) == stream ==> FeedAll(env, s, chunks).status != Crashed)
            <==> Clean(stream)
  {
    hide Drain, Clean;
    if Clean(stream) {
      forall chunks: seq<bytes> | Flatten(chunks) == stream
        ensures FeedAll(env, s, chunks).status != Crashed
      {
        assert s.buf + Flatten(chunks) == stream;
        CleanNeverCrashes(env, s, chunks);
      }
    } else {
      var chunks := UncleanCrashes(env, s, stream);
    }
  }

  /** Put together: on a clean stream every two cuts agree and none crashes. */
  lemma CleanCutsAgree(env: Env, s: State, chunks: seq<bytes>, chunks': seq<bytes>)
    requires Fresh(s)
    requires Flatten(chunks) == Flatten(chunks') && Clean(Flatten(chunks))
    requires s.count + |Flatten(chunks)| <= U64_MAX
    ensures FeedAll(env, s, chunks) == FeedAll(env, s, chunks')
    ensures FeedAll(env, s, chunks).status != Crashed
  {
    hide Drain, Clean;
    assert s.buf + Flatten(chunks) == Flatten(chunks);
    CleanNeverCrashes(env, s, chunks);
    CleanNeverCrashes(env, s, chunks');
    ChunkingIndependence(env, s, chunks, chunks');
  }

  /** Without cleanness the cut matters: `8=A` SOH SOH `x` in one read is a
      framing error that is carried along; cut before the `x` it panics. */
  lemma CutCanMatter(env: Env, s: State)
    requires Fresh(s)
    ensures exists whole: bytes, head: bytes, tail: bytes ::
              && whole == head + tail
              && FeedAll(env, s, [whole]).status == Open
              && FeedAll(env, s, [head, tail]).status == Crashed
  {
    hide FindCompleteMessage;
    var head, tail: bytes := [0x38, EQUALS, 0x41, SOH, SOH], [0x78];
    var whole := head + tail;
    DoubleSohFaults();
    ExtensionLaw(head, tail);
    assert s.buf + head == head && s.buf + whole == whole;
    FeedOne(env, s, whole);
    FeedOne(env, s, head);
    NotOpenStays(env, Feed(env, s, head), [tail]);
    assert [head, tail][1..] == [tail];
  }

  lemma DoubleSohFaults()
    ensures FindCompleteMessage([0x38, EQUALS, 0x41, SOH, SOH]) == SlicePanic
  {
    var head: bytes := [0x38, EQUALS, 0x41, SOH, SOH];
    PositionIs(head, SOH, 3);
    SlicePanicIff(head);
  }

  lemma FeedOne(env: Env, s: State, chunk: bytes)
    ensures FeedAll(env, s, [chunk]) == Feed(env, s, chunk)
  {
    assert |[chunk][1..]| == 0;
  }
}
