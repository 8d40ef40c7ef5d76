/** The four FIX fault adapters: what each decides for an intercepted message. */
module Adapter {
  import opened Words
  import opened Bytes
  import opened Message
  import opened MessageLaws

  const TAG_MSG_TYPE: tag := 35
  const TAG_ORD_STATUS: tag := 39
  const TAG_PRICE: tag := 44
  const TAG_EXEC_TYPE: tag := 150

  const MSG_TYPE_REJECT: bytes := [0x33]
  const MSG_TYPE_EXECUTION_REPORT: bytes := [0x38]
  const MSG_TYPE_ORDER_CANCEL_REJECT: bytes := [0x39]
  const ORD_STATUS_PARTIALLY_FILLED: bytes := [0x31]
  const ORD_STATUS_FILLED: bytes := [0x32]
  const ORD_STATUS_REJECTED: bytes := [0x38]
  const EXEC_TYPE_REJECTED: bytes := [0x38]
  const EXEC_TYPE_TRADE: bytes := [0x46]

  datatype Direction = Inbound | Outbound
  datatype RawMessage = RawMessage(bytes: bytes, direction: Direction)
  datatype Action = Forward | Drop | Mutate(message: bytes) | Delay(ns: u64)

  /** `Refused` is the adapter's error; `Panicked` an unwinding call. */
  datatype Reply = Act(action: Action) | Refused | Panicked

  datatype Policy =
    | SilentReject
    | AckWithoutExecution
    | RateLimitThrottle(threshold: u64)
    | PriceMutation(price: bytes)

  predicate IsRejection(fs: seq<Field>) {
    || Is(fs, TAG_MSG_TYPE, MSG_TYPE_REJECT)
    || Is(fs, TAG_MSG_TYPE, MSG_TYPE_ORDER_CANCEL_REJECT)
    || (Is(fs, TAG_MSG_TYPE, MSG_TYPE_EXECUTION_REPORT)
        && (Is(fs, TAG_ORD_STATUS, ORD_STATUS_REJECTED) || Is(fs, TAG_EXEC_TYPE, EXEC_TYPE_REJECTED)))
  }

  predicate IsFill(fs: seq<Field>) {
    && Is(fs, TAG_MSG_TYPE, MSG_TYPE_EXECUTION_REPORT)
    && (|| Is(fs, TAG_EXEC_TYPE, EXEC_TYPE_TRADE)
        || Is(fs, TAG_ORD_STATUS, ORD_STATUS_PARTIALLY_FILLED)
        || Is(fs, TAG_ORD_STATUS, ORD_STATUS_FILLED))
  }

  predicate IsPricedReport(fs: seq<Field>) {
    Is(fs, TAG_MSG_TYPE, MSG_TYPE_EXECUTION_REPORT) && Get(fs, TAG_PRICE).Some?
  }

  /** The three stateless adapters. All look at inbound traffic only. */
  function Decide(policy: Policy, msg: RawMessage): Reply
    requires !policy.RateLimitThrottle?
  {
    if msg.direction != Inbound then Act(Forward)
    else
      match Parse(msg.bytes)
      case Err(_) => Refused
      case Ok(fs) =>
        match policy
        case SilentReject => Act(if IsRejection(fs) then Drop else Forward)
        case AckWithoutExecution => Act(if IsFill(fs) then Drop else Forward)
        case PriceMutation(price) =>
          if !IsPricedReport(fs) then Act(Forward)
          else
            match SetField(msg.bytes, TAG_PRICE, price)
            case Done(mutated) => Act(Mutate(mutated))
            case Rejected(_) => Refused
            case ExpectFailed => Panicked
  }

  /** The throttle counts outbound messages; the count is a wrapping 64-bit
      fetch-and-add, the comparison uses the returned value plus one. */
  function Throttle(threshold: u64, count: u64, direction: Direction): (Reply, u64) {
    if direction != Outbound then (Act(Forward), count)
    else if count == U64_MAX then (Panicked, 0)
    else (Act(if count + 1 > threshold then Drop else Forward), count + 1)
  }

  function Intercept(policy: Policy, count: u64, msg: RawMessage): (Reply, u64) {
    match policy
    case RateLimitThrottle(threshold) => Throttle(threshold, count, msg.direction)
    case _ => (Decide(policy, msg), count)
  }

  class RateLimiter {
    const threshold: u64
    var count: u64

    constructor (threshold: u64)
      ensures this.threshold == threshold && count == 0
    {
      this.threshold := threshold;
      count := 0;
    }

    method Intercept(msg: RawMessage) returns (r: Reply)
      modifies this
      ensures (r, count) == Throttle(threshold, old(count), msg.direction)
    {
      if msg.direction != Outbound { return Act(Forward); }
      var before := count;
      count := (count + 1) % MODULUS;
      if before == U64_MAX { return Panicked; }
      var seen := before + 1;
      r := Act(if seen > threshold then Drop else Forward);
    }
  }

  // ---------------------------------------------------------------------
  // The stateless adapters on real messages
  // ---------------------------------------------------------------------

  lemma ReadEncoded(begin: bytes, fs: seq<Field>, u: tag)
    requires SOH !in begin && SohFree(fs) && NoStructural(fs) && u !in {8, 9, 10}
    ensures Parse(Encode(begin, fs)).Ok? && Get(Parse(Encode(begin, fs)).value, u) == Get(fs, u)
  {
    EncodedView(begin, fs);
    GetInBody(Parse(Encode(begin, fs)).value, u);
  }

  /** Any encoded inbound execution report, its fields in any order: the silent
      reject drops it iff its first status or its first exec type is 8, the
      missing execution iff its exec type is F or its status 1 or 2. */
  lemma {:induction false} ExecutionReports(begin: bytes, fs: seq<Field>)
    requires SOH !in begin && SohFree(fs) && NoStructural(fs)
    requires Get(fs, 35) == Some([0x38])
    ensures var m, status, execType := RawMessage(Encode(begin, fs), Inbound), Get(fs, 39), Get(fs, 150);
            && (Decide(SilentReject, m) == Act(Drop) <==> status == Some([0x38]) || execType == Some([0x38]))
            && (Decide(AckWithoutExecution, m) == Act(Drop) <==>
                execType == Some([0x46]) || status == Some([0x31]) || status == Some([0x32]))
            && Decide(SilentReject, m) in {Act(Drop), Act(Forward)}
            && Decide(AckWithoutExecution, m) in {Act(Drop), Act(Forward)}
  {
    hide Encode, Parse, Get, SohFree, NoStructural;
    ReadEncoded(begin, fs, 35);
    ReadEncoded(begin, fs, 39);
    ReadEncoded(begin, fs, 150);
  }

  /** Any other encoded inbound message, the type missing or not: only Reject
      (3) and OrderCancelReject (9) are dropped, by the silent reject only. */
  lemma {:induction false} OtherMessages(begin: bytes, fs: seq<Field>)
    requires SOH !in begin && SohFree(fs) && NoStructural(fs)
    requires Get(fs, 35) != Some([0x38])
    ensures var m, msgType := RawMessage(Encode(begin, fs), Inbound), Get(fs, 35);
            && Decide(SilentReject, m)
               == Act(if msgType == Some([0x33]) || msgType == Some([0x39]) then Drop else Forward)
            && Decide(AckWithoutExecution, m) == Act(Forward)
            && forall price :: Decide(PriceMutation(price), m) == Act(Forward)
  {
    hide Encode, Parse, Get, SohFree, NoStructural;
    ReadEncoded(begin, fs, 35);
  }

  /** An encoded inbound message is mutated exactly when it is an execution
      report that carries a price; then it is the same message with the
      configured price in every price field. */
  lemma {:induction false} PricedReports(begin: bytes, fs: seq<Field>, price: bytes)
    requires SOH !in begin && SohFree(fs) && NoStructural(fs)
    ensures Decide(PriceMutation(price), RawMessage(Encode(begin, fs), Inbound))
         == Act(if Get(fs, 35) == Some([0x38]) && Get(fs, 44).Some?
                then Mutate(Encode(begin, Replace(fs, 44, price))) else Forward)
  {
    hide Encode, Parse, Get, SetField, Replace, SohFree, NoStructural;
    ReadEncoded(begin, fs, 35);
    ReadEncoded(begin, fs, 44);
    SetOnEncoded(begin, fs, 44, price);
  }

  /** Whatever its bytes, an outbound message is left alone by the stateless
      adapters, and an inbound one that does not parse is an error to them. */
  lemma OutboundAndUnparsed(policy: Policy, m: bytes)
    requires !policy.RateLimitThrottle?
    ensures Decide(policy, RawMessage(m, Outbound)) == Act(Forward)
    ensures Decide(policy, RawMessage(m, Inbound)) == Refused <==> Parse(m).Err?
  {
    hide Parse;
    if Parse(m).Ok? && policy.PriceMutation? { SetNeverRejects(m, policy.price); }
  }

  lemma SetNeverRejects(m: bytes, price: bytes)
    requires Parse(m).Ok?
    ensures !SetField(m, TAG_PRICE, price).Rejected?
  {}

  // ---------------------------------------------------------------------
  // The throttle over whole histories
  // ---------------------------------------------------------------------

  /** Userspace switching the injector, and messages reaching the adapter from
      either relay direction, in any order. */
  datatype Event = Arm | Disarm | Arrive(direction: Direction)

  /** The enabled flag and the adapter's counter. */
  datatype Gate = Gate(on: bool, count: u64)

  function ReplyAt(threshold: u64, g: Gate, direction: Direction): Reply {
    if g.on then Throttle(threshold, g.count, direction).0 else Act(Forward)
  }

  function NextGate(threshold: u64, g: Gate, e: Event): Gate {
    match e
    case Arm => g.(on := true)
    case Disarm => g.(on := false)
    case Arrive(direction) => if g.on then g.(count := Throttle(threshold, g.count, direction).1) else g
  }

  function GateAfter(threshold: u64, history: seq<Event>): Gate {
    if history == [] then Gate(false, 0)
    else NextGate(threshold, GateAfter(threshold, history[..|history| - 1]), history[|history| - 1])
  }

  /** Whether the injector is armed after a history. */
  predicate On(history: seq<Event>) {
    if history == [] then false
    else
      match history[|history| - 1]
      case Arm => true
      case Disarm => false
      case Arrive(_) => On(history[..|history| - 1])
  }

  /** The outbound messages that arrived while armed. */
  function Total(history: seq<Event>): nat {
    if history == [] then 0
    else
      var front := history[..|history| - 1];
      Total(front) + (if history[|history| - 1] == Arrive(Outbound) && On(front) then 1 else 0)
  }

  /** Those of them since the last arming. */
  function SinceArm(history: seq<Event>): (n: nat)
    ensures n <= Total(history)
  {
    if history == [] || history[|history| - 1] == Arm then 0
    else
      var front := history[..|history| - 1];
      SinceArm(front) + (if history[|history| - 1] == Arrive(Outbound) && On(front) then 1 else 0)
  }

  /** The counter is the number of messages counted over all armed periods,
      modulo 2^64; neither arming nor disarming resets it. */
  lemma {:induction false} GateCounts(threshold: u64, history: seq<Event>)
    ensures GateAfter(threshold, history) == Gate(On(history), Total(history) % MODULUS)
    decreases |history|
  {
    hide Throttle;
    if history == [] {
      Residue(0, 0, 0);
    } else {
      var front := history[..|history| - 1];
      GateCounts(threshold, front);
      match history[|history| - 1]
      case Arm =>
      case Disarm =>
      case Arrive(direction) => CounterStep(threshold, Total(front), direction);
    }
  }

  lemma CounterStep(threshold: u64, total: nat, direction: Direction)
    ensures Throttle(threshold, total % MODULUS, direction).1
         == (if direction == Outbound then total + 1 else total) % MODULUS
  {
    var q, r := total / MODULUS, total % MODULUS;
    if r == U64_MAX {
      Residue(total + 1, q + 1, 0);
    } else {
      Residue(total + 1, q, r + 1);
    }
  }

  /** What the throttle replies after any history: a message is dropped iff it
      is outbound, arrives while armed, and at least `threshold` such messages
      came before it; the one that overflows the counter panics. */
  lemma {:induction false} ThrottleExact(threshold: u64, history: seq<Event>, direction: Direction)
    ensures var seen := Total(history) % MODULUS;
            ReplyAt(threshold, GateAfter(threshold, history), direction)
            == if !On(history) || direction == Inbound then Act(Forward)
               else if seen == U64_MAX then Panicked
               else Act(if seen >= threshold then Drop else Forward)
  {
    GateCounts(threshold, history);
  }

  function Dropped(threshold: u64, history: seq<Event>): nat {
    if history == [] then 0
    else
      var front, last := history[..|history| - 1], history[|history| - 1];
      var drops := last.Arrive? && ReplyAt(threshold, GateAfter(threshold, front), last.direction) == Act(Drop);
      Dropped(threshold, front) + (if drops then 1 else 0)
  }

  /** Of `k` counted messages all but `min(threshold, k)` are dropped. */
  lemma {:induction false} ThrottleTotal(threshold: u64, history: seq<Event>)
    requires Total(history) <= U64_MAX
    ensures Dropped(threshold, history) == if Total(history) <= threshold then 0 else Total(history) - threshold
    decreases |history|
  {
    hide GateAfter, ReplyAt;
    if history != [] {
      var front, last := history[..|history| - 1], history[|history| - 1];
      ThrottleTotal(threshold, front);
      if last.Arrive? { ThrottleExact(threshold, front, last.direction); }
    }
  }

  /** What the comment on the adapter promises for an outbound message that
      arrives while armed: dropped once `threshold` messages have passed since
      the injector was armed. */
  predicate KeepsComment(threshold: u64, history: seq<Event>) {
    ReplyAt(threshold, GateAfter(threshold, history), Outbound)
    == Act(if SinceArm(history) >= threshold then Drop else Forward)
  }

  /** The code keeps the comment for a message exactly when the threshold has
      been reached since the last arming, or not even over all periods. The
      first clause is the same with the counter's wrap-around. */
  lemma {:induction false} CommentKeptIff(threshold: u64, history: seq<Event>)
    requires On(history)
    ensures KeepsComment(threshold, history) <==>
            var seen := Total(history) % MODULUS;
            seen != U64_MAX && (if SinceArm(history) >= threshold then seen >= threshold else seen < threshold)
    ensures Total(history) < U64_MAX ==>
            (KeepsComment(threshold, history) <==> SinceArm(history) >= threshold || Total(history) < threshold)
  {
    hide GateAfter, ReplyAt;
    ThrottleExact(threshold, history, Outbound);
  }

  /** It keeps the comment whatever the threshold exactly when nothing was
      counted before the last arming. */
  lemma CommentKeptForAllIff(history: seq<Event>)
    requires On(history) && Total(history) < U64_MAX
    ensures (forall threshold: u64 :: KeepsComment(threshold, history)) <==> SinceArm(history) == Total(history)
  {
    hide KeepsComment;
    forall threshold: u64
      ensures KeepsComment(threshold, history) <==> SinceArm(history) >= threshold || Total(history) < threshold
    {
      CommentKeptIff(threshold, history);
    }
    assert KeepsComment(Total(history), history) ==> SinceArm(history) == Total(history);
  }

  /** So disarming and arming again with a full counter breaks it: the first
      message of the new period is dropped. */
  lemma CountSurvivesRearming()
    ensures var history := [Arm, Arrive(Outbound), Disarm, Arm];
            && On(history) && SinceArm(history) == 0
            && ReplyAt(1, GateAfter(1, history), Outbound) == Act(Drop)
            && !KeepsComment(1, history)
  {
    hide GateAfter, ReplyAt;
    var history := [Arm, Arrive(Outbound), Disarm, Arm];
    assert history[..3] == [Arm, Arrive(Outbound), Disarm] && history[..3][..2] == [Arm, Arrive(Outbound)];
    assert [Arm, Arrive(Outbound)][..1] == [Arm] && [Arm][..0] == [];
    assert On([Arm]) && Total([Arm]) == 0 && Total([Arm, Arrive(Outbound)]) == 1;
    ThrottleExact(1, history, Outbound);
    CommentKeptIff(1, history);
  }

  // ---------------------------------------------------------------------
  // Price mutation
  // ---------------------------------------------------------------------

  predicate Mutates(price: bytes, frame: bytes, out: bytes) {
    Decide(PriceMutation(price), RawMessage(frame, Inbound)) == Act(Mutate(out))
  }

  lemma MutatesIff(price: bytes, frame: bytes, out: bytes)
    ensures Mutates(price, frame, out) <==>
            Settable(frame) && IsPricedReport(Parse(frame).value) && SetField(frame, TAG_PRICE, price) == Done(out)
  {}

  /** A mutated report parses, carries the new price and reads as before on
      every other body tag. */
  lemma MutationReads(price: bytes, frame: bytes, out: bytes, u: tag)
    requires SOH !in price && u !in {8, 9, 10} && Mutates(price, frame, out)
    ensures Parse(frame).Ok? && Parse(out).Ok? && Settable(out)
    ensures Get(Parse(out).value, u) == if u == TAG_PRICE then Some(price) else Get(Parse(frame).value, u)
  {
    MutatesIff(price, frame, out);
    GetAfterSet(frame, TAG_PRICE, price, u);
  }

  /** So the other two adapters decide about it as about the original, ... */
  lemma MutationIsInvisible(price: bytes, frame: bytes, out: bytes)
    requires SOH !in price && Mutates(price, frame, out)
    ensures Parse(frame).Ok? && Parse(out).Ok?
    ensures IsRejection(Parse(out).value) == IsRejection(Parse(frame).value)
    ensures IsFill(Parse(out).value) == IsFill(Parse(frame).value)
    ensures IsPricedReport(Parse(out).value)
  {
    hide Parse, SetField, Get, Mutates;
    MutationReads(price, frame, out, TAG_PRICE);
    MutationReads(price, frame, out, TAG_MSG_TYPE);
    MutationReads(price, frame, out, TAG_ORD_STATUS);
    MutationReads(price, frame, out, TAG_EXEC_TYPE);
    MutatesIff(price, frame, out);
  }

  /** ... and mutating it once more changes nothing. */
  lemma MutationIsIdempotent(price: bytes, frame: bytes, out: bytes)
    requires SOH !in price && Mutates(price, frame, out)
    ensures Mutates(price, out, out)
  {
    MutatesIff(price, frame, out);
    MutatesIff(price, out, out);
    MutationIsInvisible(price, frame, out);
    MutationReads(price, frame, out, TAG_PRICE);
    SetSet(frame, TAG_PRICE, price, price);
  }
}
