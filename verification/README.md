# Verified model of blackswan-harness

A Dafny model of the four parts of blackswan-harness that have to be exactly
right for its promise ("a scenario that finds a bug should reproduce that bug
bit-exact") to hold, with proofs about all inputs and all runs.

`dafny verify dfyconfig.toml` checks the whole project.

`Words` holds the machine words all parts share.

**FIX wire pipeline** (`Bytes`, `Decimal`, `Message`, `MessageLaws`, `Framing`,
`Adapter`, `Relay`, `RelayWire`, `RelayLoop`). The tag=value parser, the
`set_field` re-printer that recomputes BodyLength and CheckSum, the frame
finder, the four adapters and the relay loop. Integers are read as Rust's
unsigned `from_str` reads them. Calls that do not return are outcomes of their
own, so nothing is excluded by a precondition: `SlicePanic` for the slice
`rest[2..tag9_end_rel]` whose end precedes its start, `LengthOverflow` for a
declared length that does not fit in a `usize`, `ExpectFailed` for `set_field`
on a message without tag 8. The main results are the exact round trip, the lens
laws, the framing prefix laws, independence of the relay from how TCP cut the
stream, and the exact wire: what a relay writes is its input frames with exactly
the configured fault done to those that arrive while the flag is set.

**Determinism engine** (`Schedule`, `Scheduler`, `Injectors`, `ClockReach`,
`Runner`). Validation, the cursor over a 64-bit virtual clock, injectors by
their contract (a failing call may leave an injector armed or not), the run
loop, traces and teardown. The main results are exact validation, replay
fidelity for every tick, the exact conditions under which a run completes and
under which it returns at all (wrap around and failing calls included), exact
timing when no wrap is needed, and agreement of the armed injectors with the set
`validate` held.

**XDP programs** (`XdpTickets`, `XdpPrograms`, `XdpPartition`,
`PartitionMatch`). The two counting programs as atomic steps of any number of
CPUs interleaved with userspace, and the partition program against a
declarative match on packets, from VLAN tags to UDP and TCP ports, that covers
every frame.

**SplitMix64** (`Powers`, `Bits`, `SplitMix64`). The generator over explicit
64-bit wrap-around, with inverses of every round and the published first draw.

## Where the code and its comments differ

- `FixRateLimitThrottle` is described as counting "since the injector was
  armed". The code never resets the count (`Adapter.CountSurvivesRearming` is a
  history that shows it). `Adapter.CommentKeptIff` says exactly for which
  messages the code does what the comment says, and
  `Adapter.CommentKeptForAllIff` after which histories it does for every
  threshold.
- `TraceEvent::wall_ns` is described as real time from `SystemClock`. The runner
  records the virtual clock, and so does the model.
- `xdp_pktloss` and `xdp_corrupt` read the configured N twice, before and after
  the atomic add. A disarm between the two reads lets a due packet through
  (`XdpTickets.DisarmCanCatchATicket`). `XdpTickets.HitsAreExact` counts these,
  `XdpTickets.HitsAreExactIff` gives the exact condition on the interleaving, and
  `XdpTickets.QuietDisarmIsExact` a discipline of disarming that meets it.
- An unset address map is all zero, so a partition injector built for one family
  also drops the other family's packets from the all-zero address
  (`PartitionMatch.UnsetAddressIsDropped`); `PartitionMatch.PeerOnlyIff` gives
  the exact condition.
- The frame finder panics on a buffer that ends in two SOH bytes right after
  BeginString, so what a relay does can depend on where a read ended
  (`Relay.CutCanMatter`); `Relay.NeverCrashesIff` says for which streams it
  cannot, by their bytes.

## Model

| member | source | states |
|---|---|---|
| `Decimal.ParseUintIff` | crates/adapters/src/fix/message.rs:46-47 | A string reads as n iff it is n's canonical decimal after any zeros and at most one plus sign, and n fits the width |
| `Message.SplitIff` | crates/adapters/src/fix/message.rs:41 | Splitting at SOH is the one way to write the input as SOH-free pieces with SOH between them |
| `Message.ParsePiecesIff` | crates/adapters/src/fix/message.rs:40-55 | Parsing yields fs iff the non-empty pieces read, one for one and in order, as fs; so it fails iff some non-empty piece does not read |
| `Message.ParseErrorsIff` | crates/adapters/src/fix/message.rs:35-54 | Which error: empty iff there is no input, missing SOH iff it is nothing but SOH bytes, malformed tag iff some non-empty piece does not read |
| `Message.ParseMessage` | crates/adapters/src/fix/message.rs:35-56 | The parsing loop returns the parse of the input, with each error case |
| `Message.FieldsOfConcat` | crates/adapters/src/fix/message.rs:41-49 | Parsing is compositional at every SOH, errors included |
| `Message.Get` | crates/adapters/src/fix/message.rs:15-17 | The first value of the tag, or none iff the tag is absent |
| `Message.ComputeChecksum` | crates/adapters/src/fix/message.rs:61-65 | The wrapping fold is the byte sum modulo 256 |
| `Message.SumConcat` | crates/adapters/src/fix/message.rs:61-65 | The sum is additive over concatenation and counts a byte with its own value |
| `Message.SetFieldInPlace` | crates/adapters/src/fix/message.rs:80-114 | The buffer-growing re-printer returns the encoded message, the parse error, or the failed expect |
| `MessageLaws.ParseRender` | crates/adapters/src/fix/message.rs:89-99 | The parser inverts the printer on every non-empty list of SOH-free fields |
| `MessageLaws.RoundTrip` | crates/adapters/src/fix/message.rs:80-114 | Re-parsing the output gives BeginString, new BodyLength, the body fields in order with every occurrence replaced, and CheckSum, iff the new value has no SOH or the tag does not occur |
| `MessageLaws.RoundTripNeedsSohFreeValue` | crates/adapters/src/fix/message.rs:94-98 | A concrete message and value with an SOH for which the round trip fails |
| `MessageLaws.SetSet` | crates/adapters/src/fix/message.rs:80-114 | Setting a tag twice keeps only the last value |
| `MessageLaws.SetsCommute` | crates/adapters/src/fix/message.rs:80-114 | Sets on different tags commute byte for byte |
| `MessageLaws.GetAfterSet` | crates/adapters/src/fix/message.rs:80-114 | A set value is read back, and every other body tag reads as before |
| `MessageLaws.AbsentSetNormalises` | crates/adapters/src/fix/message.rs:71-79 | Setting an absent tag gives a normal form that depends on neither tag nor value |
| `MessageLaws.OutputsAreNormal` | crates/adapters/src/fix/message.rs:71-79 | Normalising leaves every output of set_field byte for byte unchanged |
| `Framing.CompleteIff` | crates/adapters/src/fix/framing.rs:15-48 | A frame of length n is reported iff the buffer has the header shape, its digits read as a body length, and n bytes are there |
| `Framing.NeedMoreIff` | crates/adapters/src/fix/framing.rs:15-46 | More is asked for iff fewer than two bytes are there, or they begin some header, or one byte follows BeginString, or a header declares a length not reached yet |
| `Framing.MalformedIff` | crates/adapters/src/fix/framing.rs:19-37 | The error is reported iff the buffer is none of these, not a frame and more, and not one of the two faults |
| `Framing.ExtensionLaw` | crates/adapters/src/fix/framing.rs:15-48 | Later bytes never change a verdict other than need-more, except that the slice panic becomes an error |
| `Framing.CompleteIsMinimal` | crates/adapters/src/fix/framing.rs:39-47 | A frame is complete on its own first n bytes and every shorter prefix needs more |
| `Framing.SlicePanicIff` | crates/adapters/src/fix/framing.rs:27-36 | The call panics iff the buffer ends with BeginString's SOH and one more SOH |
| `Framing.LengthOverflowIff` | crates/adapters/src/fix/framing.rs:36-41 | The length addition overflows iff the buffer starts with a header of SOH-free parts whose digits read as a body length that, with header and trailer, exceeds a usize |
| `Framing.SelfFraming` | crates/adapters/src/fix/message.rs:101-113 | For any new value and any following bytes, a re-printed message is framed at exactly its own length, and its trailer digits are the byte sum modulo 256 of what precedes them |
| `Framing.FramedIsSettable` | crates/adapters/src/fix/message.rs:82-87 | A framed message that parses has tag 8 first, so the expect never fires on it |
| `Adapter.ExecutionReports` | crates/adapters/src/fix/adapter.rs:17-35 | Which encoded inbound execution reports each dropping adapter drops, both ways, for any fields in any order |
| `Adapter.OtherMessages` | crates/adapters/src/fix/adapter.rs:49-70 | Of all other encoded inbound messages, typed or not, only Reject and OrderCancelReject are dropped, by the silent reject only |
| `Adapter.PricedReports` | crates/adapters/src/fix/adapter.rs:138-153 | An encoded inbound message is mutated iff it is an execution report with a price, and then to the same message with the new price in every price field |
| `Adapter.OutboundAndUnparsed` | crates/adapters/src/fix/adapter.rs:18-21 | Whatever its bytes, an outbound message is forwarded by every stateless adapter; an inbound one is an error iff it does not parse |
| `Adapter.RateLimiter.Intercept` | crates/adapters/src/fix/adapter.rs:98-109 | The fetch-and-add throttle is the step function of its counter |
| `Adapter.ThrottleExact` | crates/adapters/src/fix/adapter.rs:98-109 | After any history of arming, disarming and arrivals: a message is dropped iff it is outbound, arrives while armed and at least threshold such messages came before it, over all armed periods and modulo 2^64; the one that overflows the counter panics |
| `Adapter.ThrottleTotal` | crates/adapters/src/fix/adapter.rs:98-109 | Of k counted messages all but min(threshold, k) are dropped |
| `Adapter.CommentKeptIff` | crates/adapters/src/fix/adapter.rs:73-79 | The documented count since arming decides a message iff the threshold has been reached since the last arming or not even over all periods; with wrap-around, the same about the counter's residue |
| `Adapter.CommentKeptForAllIff` | crates/adapters/src/fix/adapter.rs:73-79 | After a history the documented count decides for every threshold iff nothing was counted before the last arming |
| `Adapter.CountSurvivesRearming` | crates/adapters/src/fix/adapter.rs:73-82 | A history with a disarm and a re-arm after which the first message is dropped, against the comment |
| `Adapter.MutationReads` | crates/adapters/src/fix/adapter.rs:138-153 | A mutated report parses, carries the new price and reads as before on every other body tag |
| `Adapter.MutationIsInvisible` | crates/adapters/src/fix/adapter.rs:138-153 | The other adapters' classifications do not change under price mutation |
| `Adapter.MutationIsIdempotent` | crates/adapters/src/fix/adapter.rs:138-153 | Mutating a mutated report changes nothing |
| `Relay.ChunkingIndependence` | crates/adapters/src/fix/proxy.rs:137-187 | Two cuts of one stream that do not crash end in the same state: frames, messages shown, writes, leftover, counter, for any flag values and write failures |
| `Relay.NeverCrashesIff` | crates/adapters/src/fix/proxy.rs:145-155 | No cut of a stream crashes the relay iff at every frame boundary BeginString's SOH is not doubled and no header declares a message longer than a usize can say |
| `Relay.SafeBoundaryIff` | crates/adapters/src/fix/framing.rs:27-41 | A frame boundary meets that condition iff no prefix of what follows faults |
| `Relay.CleanCutsAgree` | crates/adapters/src/fix/proxy.rs:137-187 | On such a stream every two cuts agree and none crashes |
| `Relay.CutCanMatter` | crates/adapters/src/fix/framing.rs:36 | A stream that is carried along in one read and panics in two |
| `RelayWire.WireHomomorphism` | crates/adapters/src/fix/proxy.rs:154-186 | Open, closed by a failed write or crashed: the writes are the answered frames in order, each removed or replaced exactly as its field values, the direction and the throttle count demand if the flag was set for it, and unchanged otherwise; they re-frame with nothing left over; the answered frames are the first ones of the stream, all of them while open, and the adapter was asked about exactly the enabled ones |
| `RelayWire.DisabledIsTransparent` | crates/adapters/src/fix/proxy.rs:157-172 | With the flag off, the writes are the first frames of the stream in every state, and while open they are, with the leftover, the whole stream |
| `RelayWire.OutboundIsTransparent` | crates/adapters/src/fix/proxy.rs:154-186 | With a stateless adapter and any flag values an outbound relay writes exactly the frames it answered |
| `RelayWire.ThrottledRelay` | crates/adapters/src/fix/proxy.rs:154-186 | With the throttle an outbound relay holds back all but the first threshold messages that arrive while enabled, over all cuts and flag values, and an inbound relay none |
| `RelayLoop.Run` | crates/adapters/src/fix/proxy.rs:128-188 | The read loop computes the same state as feeding its chunks, so all relay laws hold of it |
| `RelayLoop.ChunksLaws` | crates/adapters/src/fix/proxy.rs:141-152 | A read time-out anywhere changes nothing, nothing after the end of the stream counts, and before it every read is appended |
| `RelayLoop.DrainLoop` | crates/adapters/src/fix/proxy.rs:154-186 | The drain loop computes the drained state, with the destination's writes and the throttle's counter |
| `Schedule.Validate` | crates/replay/src/schedule.rs:13-47 | A scenario is accepted iff its times never decrease and each fault's actions strictly alternate starting with Arm; a rejection names the first offending step and why |
| `Schedule.SortedIff` | crates/replay/src/schedule.rs:18-24 | Times never decrease iff no step is earlier than the one just before it |
| `Schedule.ArmedIffOdd` | crates/replay/src/schedule.rs:26-43 | A fault is in the armed set iff it has had an odd number of actions |
| `Scheduler.VirtualClock.Advance` | crates/core/src/clock.rs:37-39 | A wrapping 64-bit fetch-and-add |
| `Scheduler.CursorScheduler.Advance` | crates/replay/src/scheduler.rs:32-42 | Returns exactly the steps from the old cursor to the first one still in the future |
| `Scheduler.SlicesAreConsecutive` | crates/replay/src/scheduler.rs:32-42 | However the clock is driven, wrapping or not, the returned slices are consecutive pieces of the schedule |
| `Scheduler.FinishedRunsAgree` | crates/replay/src/scheduler.rs:32-46 | Any two ways of driving the scheduler to the end fire the schedule, in order |
| `Scheduler.FiredIffDue` | crates/replay/src/scheduler.rs:28-42 | Without wrap, a step has fired iff its time has come |
| `Injectors.Injector.Call` | crates/core/src/fault.rs:20-43 | A successful call arms or disarms as asked; a failing one may leave either |
| `Injectors.ArmedSetAgrees` | crates/replay/src/runner.rs:77-89 | After every executed step the armed injectors are the set validate held there, and each injector received exactly its own actions |
| `Injectors.CallsToggle` | crates/replay/src/runner.rs:83-86 | On a valid schedule arm is only called on an unarmed injector and disarm only on an armed one |
| `ClockReach.ReachesIff` | crates/core/src/clock.rs:37-39 | A 64-bit clock advanced by a fixed tick ever shows a time at or past t iff t is zero, or the tick is not and t is at most 2^64 less the tick's lowest set bit |
| `Runner.RunCompletesIff` | crates/replay/src/runner.rs:69-90 | Some number of advances takes the cursor through the schedule iff it is empty or its last time meets that condition |
| `Runner.RunReturnsIff` | crates/replay/src/runner.rs:69-90 | A run returns, with a trace or an error, iff it has no step or the time of the last step it calls, the failing one if any, meets that condition |
| `Runner.EventsAreThePrefix` | crates/replay/src/runner.rs:74-88 | After any number of advances the recorded steps are the schedule's prefix up to the cursor |
| `Runner.MatchesIff` | crates/replay/src/trace.rs:52-59 | Traces match iff seed, length and the time, fault and action at every position are equal |
| `Runner.ReplayFidelity` | crates/replay/src/trace.rs:48-59 | A complete run records exactly the schedule's steps; complete runs of two scenarios, whatever their ticks, match iff the scenarios have the same seed and steps |
| `Runner.RunIsTimed` | crates/replay/src/runner.rs:69-90 | Without wrap every event is stamped tick times max(1, ceil(at / tick)), and the run is complete at exactly the last step's advance |
| `Runner.FiringTimeBounds` | crates/replay/src/runner.rs:74-88 | A step fires never early, at most one tick late, and strictly less than one tick late if scheduled after zero |
| `Runner.NoWrapIfRoom` | crates/replay/src/runner.rs:69-90 | If the last time plus the tick less one fits in 64 bits, no wrap is needed and the run completes |
| `Runner.ScheduleRunner.New` | crates/replay/src/runner.rs:22-40 | A runner is built iff every fault of the schedule has an injector; else the first missing one is reported |
| `Runner.ScheduleRunner.Run` | crates/replay/src/runner.rs:65-93 | For every run that returns: injectors end as executing the schedule in order leaves them; success iff no call failed; the trace is exactly the schedule's steps at their times; it returned at the first advance that completes the schedule or passes the failing step |
| `Runner.ScheduleRunner.TeardownAll` | crates/replay/src/runner.rs:103-115 | In any visiting order: only injectors whose disarm failed stay armed; each armed one got one disarm and no other got a call; Ok iff all of those succeed, and then a second teardown makes no calls; an error names one that failed |
| `Runner.ScheduleRunner.Drop` | crates/replay/src/runner.rs:118-125 | The drop guard leaves the injectors as a teardown does, its result ignored |
| `SplitMix64.DeterministicRng.NextU64` | crates/replay/src/rng.rs:17-23 | The state advances by gamma and the draw is its mix |
| `SplitMix64.ReferenceVector` | crates/replay/src/rng.rs:63-69 | The first draw for seed 1234567 is 6457827717110365317 |
| `SplitMix64.DeterministicRng.GenRangeU64` | crates/replay/src/rng.rs:36-39 | The draw lies in [low, high) and is congruent to the raw draw |
| `SplitMix64.StateClosedForm` | crates/replay/src/rng.rs:17-18 | After k draws the state is seed + k gamma modulo 2^64 |
| `SplitMix64.MixIsBijective` | crates/replay/src/rng.rs:19-22 | The output mixer has a two-sided inverse on 64-bit words |
| `SplitMix64.FullPeriod` | crates/replay/src/rng.rs:17-23 | Any 2^64 consecutive outputs are pairwise distinct, from any seed |
| `SplitMix64.EveryWordIsDrawn` | crates/replay/src/rng.rs:17-23 | Every 64-bit word is among the first 2^64 outputs |
| `SplitMix64.SequenceRepeats` | crates/replay/src/rng.rs:17-23 | The outputs repeat after exactly 2^64 draws |
| `SplitMix64.SeedsDiffer` | crates/replay/src/rng.rs:13-23 | Different seeds give different first outputs |
| `XdpTickets.RunKeepsInv` | crates/kernel/bpf/xdp_pktloss.c:60-77 | In every interleaving the counter is the number of tickets taken, and each ticket is held by one CPU or judged once |
| `XdpTickets.TicketsAreExact` | crates/kernel/bpf/xdp_pktloss.c:60-77 | When all CPUs are done, the judged tickets are 1..K, each once |
| `XdpTickets.PacketsAreConserved` | crates/kernel/bpf/xdp_pktloss.c:60-77 | In every interleaving each packet that arrived found N zero, took a ticket, or is about to take one |
| `XdpTickets.AllPacketsDecided` | crates/kernel/bpf/xdp_pktloss.c:60-77 | When all CPUs are done, each packet was judged or bypassed |
| `XdpTickets.ConstantNIsExact` | crates/kernel/bpf/xdp_pktloss.c:60-77 | With N constant and nonzero exactly K / N of K packets are hit |
| `XdpTickets.HitsAreExact` | crates/kernel/bpf/xdp_pktloss.c:63-76 | Over any arm and disarm history exactly K / N, less the packets caught by a disarm between their two reads of N |
| `XdpTickets.HitsAreExactIff` | crates/kernel/bpf/xdp_pktloss.c:63-76 | Exactly K / N iff at no step of the interleaving a CPU judges a due ticket while N reads zero |
| `XdpTickets.QuietDisarmIsExact` | crates/kernel/bpf/xdp_pktloss.c:63-76 | Exactly K / N over any number of armed periods if every disarm happens while no CPU is between its first read and its verdict |
| `XdpTickets.DisarmCanCatchATicket` | crates/kernel/bpf/xdp_pktloss.c:64-73 | An interleaving in which a due packet passes |
| `XdpPrograms.SoloIsThreeSteps` | crates/kernel/bpf/xdp_pktloss.c:60-77 | One CPU running alone does what the interleaved machine's three steps do |
| `XdpPrograms.XdpPktloss` | crates/kernel/bpf/xdp_pktloss.c:60-77 | The verdict and the counter of one packet |
| `XdpPrograms.XdpCorrupt` | crates/kernel/bpf/xdp_corrupt.c:59-93 | The in-place change of one frame and the counter |
| `XdpPrograms.CorruptionIsLocal` | crates/kernel/bpf/xdp_corrupt.c:59-93 | In every interleaving and arm history a packet keeps its length; if it was judged while armed, N divides its ticket and the frame reaches the low 12 bits of the offset map, exactly the bits of that byte where the mask map has a one are turned over, and no other bit of any packet changes |
| `XdpPrograms.CorruptionIsExactIff` | crates/kernel/bpf/xdp_corrupt.c:59-93 | Of K ticketed packets that reach the offset exactly K / N leave changed iff no CPU judges a due ticket while N reads zero |
| `XdpPrograms.CorruptionIsAnInvolution` | crates/kernel/bpf/xdp_corrupt.c:82-90 | Corrupting the same packets twice with the same settings restores them |
| `XdpPartition.ExtractSrcPort` | crates/kernel/bpf/xdp_partition.c:93-110 | A port is returned iff a whole UDP or TCP header is there, and it is the header's source port |
| `XdpPartition.SameAddress6` | crates/kernel/bpf/xdp_partition.c:207-213 | The compare loop decides equality of the 16 bytes |
| `XdpPartition.Program` | crates/kernel/bpf/xdp_partition.c:113-251 | The offset-walking program takes the layered decision, reading only inside the frame |
| `PartitionMatch.EncodedDropsIffMatch` | crates/kernel/bpf/xdp_partition.c:93-251 | An encoded packet with any number of tags is dropped iff enabled, at most two tags, the source is the configured one, and the port is zero or its low 16 bits are the source port of a whole UDP or TCP header in an unfragmented packet or initial fragment |
| `PartitionMatch.WireConstants` | crates/kernel/bpf/xdp_partition.c:113-251 | The EtherTypes, tags, ports and next header as bytes on the wire |
| `PartitionMatch.DropsIffMatchingPacket` | crates/kernel/bpf/xdp_partition.c:113-251 | On every frame: dropped iff enabled and the frame encodes a matching packet |
| `PartitionMatch.ArmedDropsExactly` | crates/kernel/src/xdp_partition.rs:78-91 | An injector armed for one peer drops exactly that peer, and unset-address packets of the other family |
| `PartitionMatch.PeerOnlyIff` | crates/kernel/bpf/xdp_partition.c:72-74 | Dropping exactly the peer's packets holds of a packet iff it is not such a stray |
| `PartitionMatch.UnsetAddressIsDropped` | crates/kernel/bpf/xdp_partition.c:72-74 | A stray that is dropped |

## Left out

- TCP sockets, the accept loop, threads, read time-outs and `FixProxy::start/stop/run_session`: only the buffer and frame loop of `relay` is modelled, with a read error, end of stream and shutdown as one event.
- RelayLoop.Run: a failed `write_all` writes nothing in the model; the bytes a real socket may already have taken are not modelled.
- Framing.FindCompleteMessage: a length that overflows `usize` is an outcome that stops the relay, as in a build with overflow checks; the wrapped length of a build without them is not modelled.
- Adapter.Throttle: likewise the 2^64-th outbound message is a panic.
- eBPF loading, attaching and map writes: arming and disarming set the configured value. Look-ups of entry 0 in the one-entry array maps always succeed, so the programs' null checks are not modelled.
- Runner.ScheduleRunner.Run: requires that the run returns (`Runner.RunReturnsIff` says exactly when); otherwise the source loops forever. The real sleeping of `run_realtime` is not modelled.
- `DeterministicRng::next_f64` and `gen_bool`: floating point.
- cgroup and time-namespace injectors: they consist of file system and process calls.
- CLI, TOML configuration and JSON save and load of traces: library wrappers.
- UTF-8 decoding: every byte that is not a digit or a leading plus sign already fails the integer parse with the same error.
- Error message texts.
