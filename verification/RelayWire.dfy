/** What the peer of a relay sees: the wire it writes re-frames to the frames
    that came in, with exactly the configured fault done to them. */
module RelayWire {
  import opened Words
  import opened Bytes
  import opened Message
  import opened Framing
  import opened Adapter
  import opened Relay

  datatype Framed = Framed(frames: seq<bytes>, rest: bytes)

  /** A byte string cut into frames as a receiver would cut it. */
  function Reframe(r: bytes): Framed
    decreases |r|
  {
    match FindCompleteMessage(r)
    case Complete(n) =>
      var tail := Reframe(r[n..]);
      Framed([r[..n]] + tail.frames, tail.rest)
    case _ => Framed([], r)
  }

  /** The throttle's counter after `frames`, from `count`. */
  function CountAfter(env: Env, frames: seq<bytes>, count: u64): u64
    decreases |frames|, 1
  {
    if frames == [] then count else LastAsk(env, frames, count).1
  }

  /** The adapter's reply to the last of `frames`. */
  function LastAsk(env: Env, frames: seq<bytes>, count: u64): (Reply, u64)
    requires frames != []
    decreases |frames|, 0
  {
    var k := |frames| - 1;
    Ask(env, k, CountAfter(env, frames[..k], count), frames[k])
  }

  /** The writes for `frames`. */
  function Outputs(env: Env, frames: seq<bytes>, count: u64): seq<bytes> {
    if frames == [] then []
    else
      var k := |frames| - 1;
      Outputs(env, frames[..k], count) + Emitted(LastAsk(env, frames, count).0, frames[k])
  }

  lemma {:induction false} Append(env: Env, frames: seq<bytes>, frame: bytes, count: u64)
    ensures var reply := Ask(env, |frames|, CountAfter(env, frames, count), frame);
            && LastAsk(env, frames + [frame], count) == reply
            && CountAfter(env, frames + [frame], count) == reply.1
            && Outputs(env, frames + [frame], count) == Outputs(env, frames, count) + Emitted(reply.0, frame)
  {
    hide Ask, Emitted;
    assert (frames + [frame])[..|frames|] == frames;
  }

  // ---------------------------------------------------------------------
  // What a relay has written, in every state it can be in
  // ---------------------------------------------------------------------

  predicate LastPanics(env: Env, frames: seq<bytes>, count: u64) {
    frames != [] && LastAsk(env, frames, count).0.Panicked?
  }

  /** The frames whose answer has been carried out: all of them, except the one
      whose write failed or whose adapter call panicked. */
  function Answered(env: Env, s: State, count: u64): (r: seq<bytes>)
    ensures r <= s.frames
  {
    if s.frames != [] && (s.status == Closed || (s.status == Crashed && LastPanics(env, s.frames, count)))
    then s.frames[..|s.frames| - 1]
    else s.frames
  }

  predicate NonePanics(env: Env, frames: seq<bytes>, count: u64) {
    forall j :: 0 < j <= |frames| ==> !LastPanics(env, frames[..j], count)
  }

  /** The frames that arrive while the flag is set. */
  function Enabled(env: Env, frames: seq<bytes>): seq<bytes> {
    if frames == [] then []
    else
      var k := |frames| - 1;
      Enabled(env, frames[..k]) + (if env.enabledAt(k) then [frames[k]] else [])
  }

  predicate Accounts(env: Env, s: State, count: u64) {
    && NonePanics(env, Answered(env, s, count), count)
    && s.writes == Outputs(env, Answered(env, s, count), count)
    && s.shown == Enabled(env, s.frames)
    && (s.status == Open ==> s.count == CountAfter(env, s.frames, count))
  }

  lemma NonePanicsAppend(env: Env, frames: seq<bytes>, frame: bytes, count: u64)
    requires NonePanics(env, frames, count)
    ensures NonePanics(env, frames + [frame], count) <==> !LastPanics(env, frames + [frame], count)
  {
    hide LastPanics;
    var more := frames + [frame];
    assert more[..|more|] == more;
    assert forall j :: 0 < j <= |frames| ==> more[..j] == frames[..j];
  }

  lemma {:induction false} EnabledAppend(env: Env, frames: seq<bytes>, frame: bytes)
    ensures Enabled(env, frames + [frame])
         == Enabled(env, frames) + (if env.enabledAt(|frames|) then [frame] else [])
  {
    assert (frames + [frame])[..|frames|] == frames;
  }

  lemma OpenDoesNotPanic(env: Env, s: State, count: u64)
    requires s.status == Open && Accounts(env, s, count)
    ensures !LastPanics(env, s.frames, count)
  {
    hide Outputs, Enabled, CountAfter, LastAsk;
    assert s.frames[..|s.frames|] == s.frames;
  }

  lemma DeliverAccounts(env: Env, s: State, frame: bytes, count: u64)
    requires s.status == Open && Accounts(env, s, count)
    ensures Accounts(env, Deliver(env, s, frame), count)
    ensures Deliver(env, s, frame).frames == s.frames + [frame]
    ensures Deliver(env, s, frame).status == Open ==> Deliver(env, s, frame).buf == s.buf
  {
    hide Ask, CountAfter, LastAsk, Outputs, Enabled, NonePanics;
    Append(env, s.frames, frame, count);
    NonePanicsAppend(env, s.frames, frame, count);
    EnabledAppend(env, s.frames, frame);
    assert (s.frames + [frame])[..|s.frames|] == s.frames;
    assert s.shown + [] == s.shown;
  }

  lemma FaultAccounts(env: Env, s: State, count: u64)
    requires s.status == Open && Accounts(env, s, count)
    ensures Accounts(env, s.(buf := [], status := Crashed), count)
  {
    hide NonePanics, Outputs, Enabled, CountAfter, LastPanics;
    OpenDoesNotPanic(env, s, count);
  }

  /** The frames so far and those still to come are those of the stream; a
      relay that has stopped has taken the first few of them. */
  predicate Follows(s: State, rest: bytes, whole: Framed) {
    if s.status == Open then
      && s.frames + Reframe(s.buf + rest).frames == whole.frames
      && Reframe(s.buf + rest).rest == whole.rest
    else s.frames <= whole.frames
  }

  lemma FollowsFrame(s: State, rest: bytes, whole: Framed, next: State)
    requires s.status == Open && Follows(s, rest, whole)
    requires FindCompleteMessage(s.buf).Complete?
    requires var n := FindCompleteMessage(s.buf).length;
             next.frames == s.frames + [s.buf[..n]] && (next.status == Open ==> next.buf == s.buf[n..])
    ensures Follows(next, rest, whole)
  {
    hide FindCompleteMessage;
    var n := FindCompleteMessage(s.buf).length;
    var all, frame := s.buf + rest, s.buf[..n];
    ExtensionLaw(s.buf, rest);
    assert all[..n] == frame && all[n..] == s.buf[n..] + rest;
    SeqAssociates(s.frames, [frame], Reframe(all[n..]).frames);
  }

  lemma SeqAssociates(a: seq<bytes>, b: seq<bytes>, c: seq<bytes>)
    ensures a + b + c == a + (b + c)
  {}

  lemma {:induction false} DrainFollows(env: Env, s: State, rest: bytes, whole: Framed, count: u64)
    requires s.status == Open && Accounts(env, s, count) && Follows(s, rest, whole)
    ensures Accounts(env, Drain(env, s), count) && Follows(Drain(env, s), rest, whole)
    ensures Drain(env, s).status == Open ==> !FindCompleteMessage(Drain(env, s).buf).Complete?
    decreases |s.buf|
  {
    hide FindCompleteMessage, Deliver, Accounts, Follows;
    match FindCompleteMessage(s.buf)
    case NeedMore =>
    case Malformed =>
    case Complete(n) =>
      var next := Deliver(env, s.(buf := s.buf[n..]), s.buf[..n]);
      assert Accounts(env, s.(buf := s.buf[n..]), count) by { AccountsIgnoresBuffer(env, s, s.buf[n..], count); }
      DeliverAccounts(env, s.(buf := s.buf[n..]), s.buf[..n], count);
      FollowsFrame(s, rest, whole, next);
      if next.status == Open { DrainFollows(env, next, rest, whole, count); }
    case _ =>
      FaultAccounts(env, s, count);
      StopFollows(s, rest, whole);
  }

  lemma AccountsIgnoresBuffer(env: Env, s: State, buf: bytes, count: u64)
    requires Accounts(env, s, count)
    ensures Accounts(env, s.(buf := buf), count)
  {
    hide NonePanics, Outputs, Enabled, CountAfter, LastPanics;
  }

  lemma StopFollows(s: State, rest: bytes, whole: Framed)
    requires s.status == Open && Follows(s, rest, whole)
    ensures Follows(s.(buf := [], status := Crashed), rest, whole)
  {}

  lemma {:induction false} FeedAllFollows(env: Env, s: State, chunks: seq<bytes>, whole: Framed, count: u64)
    requires Accounts(env, s, count) && Follows(s, Flatten(chunks), whole)
    requires s.status == Open ==> !FindCompleteMessage(s.buf).Complete?
    ensures var end := FeedAll(env, s, chunks);
            && Accounts(env, end, count)
            && (if end.status == Open then Framed(end.frames, end.buf) == whole else end.frames <= whole.frames)
    decreases |chunks|
  {
    hide Drain, FindCompleteMessage, Accounts;
    NotOpenStays(env, s, chunks);
    if s.status == Open {
      if chunks == [] {
        assert s.buf + [] == s.buf && s.frames + [] == s.frames;
      } else {
        var fed := s.(buf := s.buf + chunks[0]);
        assert s.buf + Flatten(chunks) == fed.buf + Flatten(chunks[1..]);
        AccountsIgnoresBuffer(env, s, fed.buf, count);
        DrainFollows(env, fed, Flatten(chunks[1..]), whole, count);
        FeedAllFollows(env, Drain(env, fed), chunks[1..], whole, count);
      }
    }
  }

  lemma FreshFollows(env: Env, s: State, stream: bytes)
    requires Fresh(s)
    ensures Accounts(env, s, s.count) && Follows(s, stream, Reframe(stream))
    ensures !FindCompleteMessage(s.buf).Complete?
  {
    assert s.buf + stream == stream;
    assert [] + Reframe(stream).frames == Reframe(stream).frames;
  }

  // ---------------------------------------------------------------------
  // Every write frames itself
  // ---------------------------------------------------------------------

  ghost predicate SelfFramed(w: bytes) {
    forall rest: bytes :: FindCompleteMessage(w + rest) == Complete(|w|)
  }

  /** A byte string that is one whole frame. */
  predicate IsWhole(frame: bytes) {
    FindCompleteMessage(frame) == Complete(|frame|)
  }

  lemma {:induction false} FramesAreWhole(r: bytes)
    ensures forall f | f in Reframe(r).frames :: IsWhole(f)
    decreases |r|
  {
    hide FindCompleteMessage;
    if FindCompleteMessage(r).Complete? {
      var n := FindCompleteMessage(r).length;
      FramesAreWhole(r[n..]);
      CompleteIsMinimal(r, n);
    }
  }

  lemma WholeIsSelfFramed(frame: bytes)
    requires IsWhole(frame)
    ensures SelfFramed(frame)
  {
    hide FindCompleteMessage;
    forall rest: bytes ensures FindCompleteMessage(frame + rest) == Complete(|frame|) {
      ExtensionLaw(frame, rest);
    }
  }

  lemma EmittedIsSelfFramed(env: Env, k: nat, count: u64, frame: bytes)
    requires IsWhole(frame)
    ensures forall w | w in Emitted(Ask(env, k, count, frame).0, frame) && |w| <= USIZE_MAX :: SelfFramed(w)
  {
    hide SelfFramed, IsWhole;
    WholeIsSelfFramed(frame);
    var reply := Ask(env, k, count, frame).0;
    if reply.Act? && reply.action.Mutate? { MutatedIsSelfFramed(env, k, count, frame); }
  }

  lemma MutatedIsSelfFramed(env: Env, k: nat, count: u64, frame: bytes)
    requires Ask(env, k, count, frame).0.Act? && Ask(env, k, count, frame).0.action.Mutate?
    ensures var m := Ask(env, k, count, frame).0.action.message;
            |m| <= USIZE_MAX ==> SelfFramed(m)
  {
    hide FindCompleteMessage, Parse, SetField;
    var m := Ask(env, k, count, frame).0.action.message;
    MutatesIff(env.policy.price, frame, m);
    if |m| <= USIZE_MAX {
      forall rest: bytes ensures FindCompleteMessage(m + rest) == Complete(|m|) {
        SelfFraming(frame, TAG_PRICE, env.policy.price, rest);
      }
    }
  }

  lemma {:induction false} OutputsAreSelfFramed(env: Env, frames: seq<bytes>, count: u64)
    requires forall f | f in frames :: IsWhole(f)
    ensures forall w | w in Outputs(env, frames, count) && |w| <= USIZE_MAX :: SelfFramed(w)
    decreases |frames|
  {
    hide IsWhole, Ask, Emitted, SelfFramed;
    if frames != [] {
      var k := |frames| - 1;
      OutputsAreSelfFramed(env, frames[..k], count);
      EmittedIsSelfFramed(env, k, CountAfter(env, frames[..k], count), frames[k]);
    }
  }

  lemma ReframeNothing()
    ensures Reframe([]) == Framed([], [])
  {}

  lemma SelfFramedThen(w: bytes, rest: bytes)
    requires SelfFramed(w)
    ensures FindCompleteMessage(w + rest) == Complete(|w|)
  {}

  lemma {:induction false} ReframeFlattened(ws: seq<bytes>)
    requires forall w | w in ws :: SelfFramed(w)
    ensures Reframe(Flatten(ws)) == Framed(ws, [])
    decreases |ws|
  {
    hide FindCompleteMessage, SelfFramed;
    if ws == [] {
      ReframeNothing();
    } else {
      var rest := Flatten(ws[1..]);
      assert ws[0] in ws;
      SelfFramedThen(ws[0], rest);
      assert (ws[0] + rest)[..|ws[0]|] == ws[0] && (ws[0] + rest)[|ws[0]|..] == rest;
      ReframeFlattened(ws[1..]);
      assert [ws[0]] + ws[1..] == ws;
    }
  }

  // ---------------------------------------------------------------------
  // What the configured fault does to a frame, by its field values
  // ---------------------------------------------------------------------

  /** What should be written for a frame that arrives while the flag is set,
      after `seen` such frames. A frame that does not parse passes. */
  function FaultOn(policy: Policy, direction: Direction, seen: nat, frame: bytes): seq<bytes> {
    if policy.RateLimitThrottle? then
      if direction == Outbound && seen >= policy.threshold then [] else [frame]
    else if direction == Outbound || Parse(frame).Err? then [frame]
    else
      var fs := Parse(frame).value;
      var msgType, status, execType := Get(fs, 35), Get(fs, 39), Get(fs, 150);
      match policy
      case SilentReject =>
        if msgType == Some([0x33]) || msgType == Some([0x39])
           || (msgType == Some([0x38]) && (status == Some([0x38]) || execType == Some([0x38])))
        then [] else [frame]
      case AckWithoutExecution =>
        if msgType == Some([0x38])
           && (execType == Some([0x46]) || status == Some([0x31]) || status == Some([0x32]))
        then [] else [frame]
      case PriceMutation(price) =>
        if msgType == Some([0x38]) && Get(fs, 44).Some? && SetField(frame, 44, price).Done?
        then [SetField(frame, 44, price).message] else [frame]
  }

  /** How many of the first `k` frames arrive while the flag is set. */
  function EnabledBefore(env: Env, k: nat): (n: nat)
    ensures n <= k
  {
    if k == 0 then 0 else EnabledBefore(env, k - 1) + (if env.enabledAt(k - 1) then 1 else 0)
  }

  function OnWire(env: Env, k: nat, count: u64, frame: bytes): seq<bytes> {
    if env.enabledAt(k) then FaultOn(env.policy, env.direction, count + EnabledBefore(env, k), frame) else [frame]
  }

  /** The whole wire: each frame in order, with the fault done to it if the flag
      was set for it, and unchanged otherwise. */
  function Wire(env: Env, frames: seq<bytes>, count: u64): seq<bytes> {
    if frames == [] then []
    else
      var k := |frames| - 1;
      Wire(env, frames[..k], count) + OnWire(env, k, count, frames[k])
  }

  lemma {:induction false} WirePrefix(env: Env, frames: seq<bytes>, k: nat, count: u64)
    requires k <= |frames|
    ensures Wire(env, frames[..k], count) <= Wire(env, frames, count)
    decreases |frames|
  {
    hide FaultOn;
    if k == |frames| {
      assert frames[..k] == frames;
    } else {
      assert frames[..|frames| - 1][..k] == frames[..k];
      WirePrefix(env, frames[..|frames| - 1], k, count);
    }
  }

  predicate Throttles(env: Env) {
    env.policy.RateLimitThrottle? && env.direction == Outbound
  }

  /** What a relay does for one frame is the fault on it, unless it panics. */
  lemma AskIsFault(env: Env, k: nat, count: u64, frame: bytes)
    requires !Ask(env, k, count, frame).0.Panicked?
    ensures Emitted(Ask(env, k, count, frame).0, frame)
         == if env.enabledAt(k) then FaultOn(env.policy, env.direction, count, frame) else [frame]
    ensures Ask(env, k, count, frame).1 == if Throttles(env) && env.enabledAt(k) then count + 1 else count
  {
    hide Parse, Get, SetField;
    if Parse(frame).Ok? && env.policy.PriceMutation? { SetNeverRejects(frame, env.policy.price); }
  }

  lemma FaultIgnoresCount(env: Env, seen: nat, other: nat, frame: bytes)
    requires !Throttles(env)
    ensures FaultOn(env.policy, env.direction, seen, frame) == FaultOn(env.policy, env.direction, other, frame)
  {
    hide Parse, Get, SetField;
  }

  lemma {:induction false} OutputsAreWire(env: Env, frames: seq<bytes>, count: u64)
    requires NonePanics(env, frames, count)
    ensures Outputs(env, frames, count) == Wire(env, frames, count)
    ensures CountAfter(env, frames, count) == if Throttles(env) then count + EnabledBefore(env, |frames|) else count
    decreases |frames|
  {
    hide Ask, Emitted, FaultOn;
    if frames != [] {
      var k := |frames| - 1;
      assert frames[..|frames|] == frames;
      assert forall j :: 0 < j <= k ==> frames[..k][..j] == frames[..j];
      OutputsAreWire(env, frames[..k], count);
      var before := CountAfter(env, frames[..k], count);
      AskIsFault(env, k, before, frames[k]);
      if !Throttles(env) { FaultIgnoresCount(env, before, count + EnabledBefore(env, k), frames[k]); }
    }
  }

  /** Wire homomorphism, exactly: for every adapter, every cut of the stream,
      every sequence of flag values and of write failures, and whether the relay
      is open, closed or crashed, it has written the frames it has answered, in
      order, with the configured fault done to those that arrived while the flag
      was set and nothing to the others; this re-frames with nothing left over.
      The answered frames are the first ones of the stream, all of them while it
      is open, and the adapter was asked about exactly the enabled ones. The size
      bound is the address-space limit on a byte vector. */
  lemma WireHomomorphism(env: Env, s: State, chunks: seq<bytes>)
    requires Fresh(s)
    requires forall w | w in FeedAll(env, s, chunks).writes :: |w| <= USIZE_MAX
    ensures var end, input := FeedAll(env, s, chunks), Reframe(Flatten(chunks));
            var answered := Answered(env, end, s.count);
            && (if end.status == Open then Framed(end.frames, end.buf) == input else end.frames <= input.frames)
            && end.writes == Wire(env, answered, s.count) <= Wire(env, input.frames, s.count)
            && end.shown == Enabled(env, end.frames)
            && Reframe(Flatten(end.writes)) == Framed(end.writes, [])
  {
    hide FeedAll, Reframe, Outputs, SelfFramed, Wire, Enabled, NonePanics;
    hide FindCompleteMessage, Follows, Answered, IsWhole;
    var end, input := FeedAll(env, s, chunks), Reframe(Flatten(chunks));
    FreshFollows(env, s, Flatten(chunks));
    FeedAllFollows(env, s, chunks, input, s.count);
    var answered := Answered(env, end, s.count);
    assert answered <= end.frames <= input.frames;
    assert answered == input.frames[..|answered|];
    WirePrefix(env, input.frames, |answered|, s.count);
    FramesAreWhole(Flatten(chunks));
    OutputsAreSelfFramed(env, answered, s.count);
    ReframeFlattened(end.writes);
    OutputsAreWire(env, answered, s.count);
  }

  lemma WritesAreWire(env: Env, s: State, chunks: seq<bytes>)
    requires Fresh(s)
    ensures var end := FeedAll(env, s, chunks);
            && end.writes == Wire(env, Answered(env, end, s.count), s.count)
            && end.frames <= Reframe(Flatten(chunks)).frames
            && (end.status == Open ==> Framed(end.frames, end.buf) == Reframe(Flatten(chunks)))
  {
    hide FeedAll, Reframe, Outputs, Wire, Enabled, NonePanics, FindCompleteMessage, Follows, Answered;
    FreshFollows(env, s, Flatten(chunks));
    FeedAllFollows(env, s, chunks, Reframe(Flatten(chunks)), s.count);
    OutputsAreWire(env, Answered(env, FeedAll(env, s, chunks), s.count), s.count);
  }

  // ---------------------------------------------------------------------
  // What follows for particular relays
  // ---------------------------------------------------------------------

  /** The flag is never set, or the fault acts on the other direction. */
  ghost predicate Harmless(env: Env) {
    (forall i :: !env.enabledAt(i)) || (env.direction == if env.policy.RateLimitThrottle? then Inbound else Outbound)
  }

  /** The stateless faults act on inbound traffic only: an outbound relay, for
      any flag values, writes exactly the frames it has answered. */
  lemma {:induction false} OutboundIsTransparent(env: Env, s: State, chunks: seq<bytes>)
    requires Fresh(s) && env.direction == Outbound && !env.policy.RateLimitThrottle?
    ensures FeedAll(env, s, chunks).writes == Answered(env, FeedAll(env, s, chunks), s.count)
  {
    hide FeedAll, Wire, Answered, Reframe;
    WritesAreWire(env, s, chunks);
    UntouchedWire(env, Answered(env, FeedAll(env, s, chunks), s.count), s.count);
  }

  lemma WireLast(env: Env, frames: seq<bytes>, count: u64)
    requires frames != []
    ensures var k := |frames| - 1;
            Wire(env, frames, count) == Wire(env, frames[..k], count) + OnWire(env, k, count, frames[k])
  {}

  lemma HarmlessFault(env: Env, k: nat, count: u64, frame: bytes)
    requires Harmless(env)
    ensures OnWire(env, k, count, frame) == [frame]
  {
    hide Parse, Get, SetField;
  }

  lemma {:induction false} UntouchedWire(env: Env, frames: seq<bytes>, count: u64)
    requires Harmless(env)
    ensures Wire(env, frames, count) == frames
    decreases |frames|
  {
    hide Wire, Harmless;
    if frames == [] {
      NoWire(env, count);
    } else {
      UntouchedWire(env, frames[..|frames| - 1], count);
      UntouchedLast(env, frames, count);
    }
  }

  lemma NoWire(env: Env, count: u64)
    ensures Wire(env, [], count) == []
  {}

  lemma {:induction false} UntouchedLast(env: Env, frames: seq<bytes>, count: u64)
    requires Harmless(env) && frames != []
    requires Wire(env, frames[..|frames| - 1], count) == frames[..|frames| - 1]
    ensures Wire(env, frames, count) == frames
  {
    hide Wire, OnWire, Harmless;
    var k := |frames| - 1;
    WireLast(env, frames, count);
    HarmlessFault(env, k, count, frames[k]);
    assert frames[..k] + [frames[k]] == frames;
  }

  /** How many of `arrivals` messages a throttle holds back that has counted
      `count` before. */
  function Excess(count: nat, arrivals: nat, threshold: nat): nat {
    if count + arrivals <= threshold then 0 else if count <= threshold then count + arrivals - threshold else arrivals
  }

  lemma {:induction false} ThrottledWire(env: Env, frames: seq<bytes>, count: u64)
    requires Throttles(env)
    ensures |Wire(env, frames, count)| + Excess(count, EnabledBefore(env, |frames|), env.policy.threshold) == |frames|
    decreases |frames|
  {
    if frames != [] { ThrottledWire(env, frames[..|frames| - 1], count); }
  }

  /** The throttle in a relay: outbound, of the messages that arrived while
      enabled all but the first `threshold` are held back and every other one is
      written; inbound, every message is written. */
  lemma {:induction false} ThrottledRelay(env: Env, s: State, chunks: seq<bytes>)
    requires Fresh(s) && env.policy.RateLimitThrottle?
    ensures var end := FeedAll(env, s, chunks);
            var answered := Answered(env, end, s.count);
            if env.direction == Inbound then end.writes == answered
            else |end.writes| == |answered| - Excess(s.count, EnabledBefore(env, |answered|), env.policy.threshold)
  {
    hide FeedAll, Wire, Answered, Reframe;
    var answered := Answered(env, FeedAll(env, s, chunks), s.count);
    WritesAreWire(env, s, chunks);
    if env.direction == Inbound {
      UntouchedWire(env, answered, s.count);
    } else {
      ThrottledWire(env, answered, s.count);
    }
  }

  lemma {:induction false} ReframeKeepsBytes(r: bytes)
    ensures Flatten(Reframe(r).frames) + Reframe(r).rest == r
    decreases |r|
  {
    hide FindCompleteMessage;
    if FindCompleteMessage(r).Complete? {
      var n := FindCompleteMessage(r).length;
      ReframeKeepsBytes(r[n..]);
      assert Reframe(r).frames[1..] == Reframe(r[n..]).frames;
      assert r == r[..n] + r[n..];
    }
  }

  lemma {:induction false} FlattenPrefix(parts: seq<bytes>, k: nat)
    requires k <= |parts|
    ensures Flatten(parts[..k]) <= Flatten(parts)
    decreases k
  {
    if k > 0 {
      FlattenPrefix(parts[1..], k - 1);
      assert parts[..k][1..] == parts[1..][..k - 1];
    }
  }

  /** While disarmed the proxy is transparent: what it wrote, followed by what
      it still holds, is the stream; and a relay that has stopped wrote the
      beginning of the stream, whole frames only. */
  lemma {:induction false} DisabledIsTransparent(env: Env, s: State, chunks: seq<bytes>)
    requires Fresh(s)
    requires forall i :: !env.enabledAt(i)
    ensures var end := FeedAll(env, s, chunks);
            && Flatten(end.writes) <= Flatten(chunks)
            && end.writes <= Reframe(Flatten(chunks)).frames
            && (end.status == Open ==> Flatten(end.writes) + end.buf == Flatten(chunks))
  {
    hide FeedAll, Reframe, Wire, Answered;
    var end, input := FeedAll(env, s, chunks), Reframe(Flatten(chunks));
    WritesAreWire(env, s, chunks);
    UntouchedWire(env, Answered(env, end, s.count), s.count);
    assert end.writes <= end.frames <= input.frames;
    assert end.writes == input.frames[..|end.writes|];
    FlattenPrefix(input.frames, |end.writes|);
    ReframeKeepsBytes(Flatten(chunks));
    assert Flatten(input.frames) <= Flatten(chunks);
    OpenAnsweredAll(env, end, s.count);
  }

  lemma OpenAnsweredAll(env: Env, s: State, count: u64)
    ensures s.status == Open ==> Answered(env, s, count) == s.frames
  {}
}
