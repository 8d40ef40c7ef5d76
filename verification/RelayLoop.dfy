/** The relay as it runs: a growing buffer, a read loop and a drain loop, over
    an adapter object and a destination. */
module RelayLoop {
  import opened Words
  import opened Bytes
  import opened Framing
  import opened Adapter
  import opened Relay

  /** One turn of the read loop. `Ended` stands for end of stream, a read
      error and the shutdown flag; all three return. */
  datatype Read = Data(chunk: bytes) | TimedOut | Ended

  /** The chunks a relay appends before it returns. */
  function Chunks(turns: seq<Read>): seq<bytes> {
    if turns == [] then []
    else
      match turns[0]
      case Ended => []
      case TimedOut => Chunks(turns[1..])
      case Data(chunk) => [chunk] + Chunks(turns[1..])
  }

  predicate NeverEnds(turns: seq<Read>) {
    forall i :: 0 <= i < |turns| ==> !turns[i].Ended?
  }

  lemma {:induction false} ChunksConcat(a: seq<Read>, b: seq<Read>)
    ensures Chunks(a + b) == if NeverEnds(a) then Chunks(a) + Chunks(b) else Chunks(a)
    decreases |a|
  {
    if a == [] {
      assert a + b == b;
    } else {
      assert (a + b)[0] == a[0] && (a + b)[1..] == a[1..] + b;
      assert NeverEnds(a) <==> !a[0].Ended? && NeverEnds(a[1..]) by {
        assert forall i :: 0 < i < |a| ==> a[i] == a[1..][i - 1];
      }
      ChunksConcat(a[1..], b);
      if a[0].Data? { assert [a[0].chunk] + (Chunks(a[1..]) + Chunks(b)) == Chunks(a) + Chunks(b); }
    }
  }

  /** What a relay reads: a time-out anywhere changes nothing, nothing after the
      end of the stream counts, and before it every read is appended. */
  lemma ChunksLaws(a: seq<Read>, chunk: bytes, b: seq<Read>)
    ensures Chunks(a + [TimedOut] + b) == Chunks(a + b)
    ensures Chunks(a + [Ended] + b) == Chunks(a)
    ensures NeverEnds(a) ==> Chunks(a + [Data(chunk)] + b) == Chunks(a) + [chunk] + Chunks(b)
    ensures NeverEnds(a) ==> Flatten(Chunks(a + [Data(chunk)])) == Flatten(Chunks(a)) + chunk
  {
    hide Chunks;
    OneTurn(TimedOut);
    OneTurn(Ended);
    OneTurn(Data(chunk));
    ChunksConcat(a, b);
    ChunksConcat(a, [TimedOut]);
    ChunksConcat(a + [TimedOut], b);
    ChunksConcat(a, [Ended]);
    ChunksConcat(a + [Ended], b);
    ChunksConcat(a, [Data(chunk)]);
    ChunksConcat(a + [Data(chunk)], b);
    FlattenAppend(Chunks(a), chunk);
    assert (a + [Ended])[|a|].Ended?;
    assert Chunks(a) + [] == Chunks(a);
    assert !NeverEnds(a) ==> !NeverEnds(a + [TimedOut]) by {
      assert forall i :: 0 <= i < |a| ==> (a + [TimedOut])[i] == a[i];
    }
  }

  lemma OneTurn(turn: Read)
    ensures Chunks([turn]) == if turn.Data? then [turn.chunk] else []
  {
    assert |[turn][1..]| == 0;
  }

  /** The write side of a connection: the k-th write succeeds iff `ok(k)`. */
  class Destination {
    const ok: nat -> bool
    var writes: seq<bytes>

    constructor (ok: nat -> bool)
      ensures this.ok == ok && writes == []
    {
      this.ok := ok;
      writes := [];
    }

    method WriteAll(message: bytes) returns (success: bool)
      modifies this
      ensures success == ok(|old(writes)|)
      ensures writes == if success then old(writes) + [message] else old(writes)
    {
      success := ok(|writes|);
      if success { writes := writes + [message]; }
    }
  }

  /** The adapters as objects: only the throttle has state. */
  datatype AdapterObject = Stateless(policy: Policy) | Limiting(limiter: RateLimiter)

  predicate IsValid(a: AdapterObject) {
    a.Stateless? ==> !a.policy.RateLimitThrottle?
  }

  function PolicyOf(a: AdapterObject): Policy {
    match a
    case Stateless(policy) => policy
    case Limiting(limiter) => RateLimitThrottle(limiter.threshold)
  }

  function CountOf(a: AdapterObject): u64
    reads if a.Limiting? then {a.limiter} else {}
  {
    if a.Limiting? then a.limiter.count else 0
  }

  method AskAdapter(a: AdapterObject, enabled: bool, direction: Direction, frame: bytes) returns (reply: Reply)
    requires IsValid(a)
    modifies if a.Limiting? then {a.limiter} else {}
    ensures (reply, CountOf(a)) == if enabled then Intercept(PolicyOf(a), old(CountOf(a)), RawMessage(frame, direction))
                                   else (Act(Forward), old(CountOf(a)))
  {
    if !enabled { return Act(Forward); }
    match a {
      case Stateless(policy) => reply := Decide(policy, RawMessage(frame, direction));
      case Limiting(limiter) => reply := limiter.Intercept(RawMessage(frame, direction));
    }
  }

  /** The loop computes exactly `FeedAll` over the chunks it reads, so the
      laws of `Relay` and `RelayWire` are laws of the loop. */
  method Run(turns: seq<Read>, dst: Destination, direction: Direction, adapter: AdapterObject, enabledAt: nat -> bool)
    returns (end: State)
    requires IsValid(adapter) && dst.writes == []
    modifies dst, if adapter.Limiting? then {adapter.limiter} else {}
    ensures end == FeedAll(Env(PolicyOf(adapter), direction, enabledAt, dst.ok),
                           State([], [], [], [], old(CountOf(adapter)), Open), Chunks(turns))
    ensures dst.writes == end.writes && CountOf(adapter) == end.count
  {
    hide FindCompleteMessage, Intercept, Deliver, Drain;
    ghost var env := Env(PolicyOf(adapter), direction, enabledAt, dst.ok);
    end := State([], [], [], [], CountOf(adapter), Open);
    ghost var start := end;
    for i := 0 to |turns|
      invariant end.status == Open && end.writes == dst.writes && end.count == CountOf(adapter)
      invariant FeedAll(env, end, Chunks(turns[i..])) == FeedAll(env, start, Chunks(turns))
    {
      ghost var later := Chunks(turns[i + 1..]);
      assert turns[i..][0] == turns[i] && turns[i..][1..] == turns[i + 1..];
      match turns[i] {
        case Ended => return;
        case TimedOut => continue;
        case Data(chunk) =>
          ghost var before := end;
          assert Chunks(turns[i..])[1..] == later;
          end := DrainLoop(end.(buf := end.buf + chunk), dst, direction, adapter, enabledAt);
          assert end == Feed(env, before, chunk);
          if end.status != Open {
            NotOpenStays(env, end, later);
            return;
          }
      }
    }
  }

  method DrainLoop(s: State, dst: Destination, direction: Direction, adapter: AdapterObject, enabledAt: nat -> bool)
    returns (end: State)
    requires IsValid(adapter) && s.status == Open && s.writes == dst.writes && s.count == CountOf(adapter)
    modifies dst, if adapter.Limiting? then {adapter.limiter} else {}
    ensures end == Drain(Env(PolicyOf(adapter), direction, enabledAt, dst.ok), s)
    ensures dst.writes == end.writes && CountOf(adapter) == end.count
  {
    hide FindCompleteMessage, Intercept;
    ghost var env := Env(PolicyOf(adapter), direction, enabledAt, dst.ok);
    var buf, frames, shown := s.buf, s.frames, s.shown;
    var verdict := FindCompleteMessage(buf);
    while verdict.Complete?
      invariant verdict == FindCompleteMessage(buf)
      invariant Drain(env, State(buf, frames, shown, dst.writes, CountOf(adapter), Open)) == Drain(env, s)
      decreases |buf|
    {
      ghost var now := State(buf, frames, shown, dst.writes, CountOf(adapter), Open);
      var message := buf[..verdict.length];
      buf := buf[verdict.length..];
      var enabled := enabledAt(|frames|);
      frames := frames + [message];
      if enabled { shown := shown + [message]; }
      var reply := AskAdapter(adapter, enabled, direction, message);
      assert Drain(env, now) == Drain(env, Deliver(env, now.(buf := buf), message));
      if reply.Panicked? {
        return State([], frames, shown, dst.writes, CountOf(adapter), Crashed);
      }
      var out := Emitted(reply, message);
      if out != [] {
        var success := dst.WriteAll(out[0]);
        if !success {
          return State([], frames, shown, dst.writes, CountOf(adapter), Closed);
        }
      }
      verdict := FindCompleteMessage(buf);
    }
    end := State(buf, frames, shown, dst.writes, CountOf(adapter), Open);
    if verdict.SlicePanic? || verdict.LengthOverflow? {
      end := end.(buf := [], status := Crashed);
    }
  }
}
