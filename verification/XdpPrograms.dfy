/** The packet-loss and byte-corruption programs as each CPU runs them, and
    corruption over whole packet runs. */
module XdpPrograms {
  import opened Words
  import opened Powers
  import opened Bits
  import opened Bytes
  import opened XdpTickets

  /** The one-entry array maps shared with userspace. */
  class Maps {
    var everyN: u32
    var packetCount: u64
    var corruptOffset: u32
    var corruptMask: u32

    constructor ()
      ensures everyN == 0 && packetCount == 0 && corruptOffset == 0 && corruptMask == 0
    {
      everyN, packetCount, corruptOffset, corruptMask := 0, 0, 0, 0;
    }
  }

  /** One packet with nothing interleaved: is it hit, and the counter after. */
  function Solo(n: u32, count: u64): (bool, u64) {
    if n == 0 then (false, count)
    else
      var c := (count + 1) % MODULUS;
      (c % n == 0, c)
  }

  /** This is what the interleaved machine does when one CPU runs alone. */
  lemma SoloIsThreeSteps(s: State, c: nat)
    requires CpuOf(s, c) == Idle
    ensures var t := Next(Next(Next(s, Begin(c)), Take(c)), Judge(c));
            && t.counter == Solo(s.n, s.counter).1
            && CpuOf(t, c) == Idle
            && (s.n == 0 ==> t.judged == s.judged)
            && (s.n != 0 ==> |t.judged| == |s.judged| + 1
                             && (Hit(t.judged[|s.judged|]) <==> Solo(s.n, s.counter).0))
  {}

  method XdpPktloss(m: Maps) returns (drop: bool)
    modifies m`packetCount
    ensures (drop, m.packetCount) == Solo(m.everyN, old(m.packetCount))
  {
    if m.everyN == 0 { return false; }
    m.packetCount := (m.packetCount + 1) % MODULUS;
    var c := m.packetCount;
    drop := c % m.everyN == 0;
  }

  /** One byte of the frame is xored with the low byte of the mask, if the
      frame reaches the offset, of which the low 12 bits count. */
  function Flip(f: bytes, corruptOffset: u32, corruptMask: u32): (g: bytes)
    ensures |g| == |f|
  {
    var off := corruptOffset % 0x1000;
    if off < |f| then f[off := FlipByte(f[off], corruptMask)] else f
  }

  function FlipByte(b: byte, corruptMask: u32): byte {
    Pow2Of8();
    XorFits(b, corruptMask % 0x100, 8);
    Xor(b, corruptMask % 0x100)
  }

  /** The packet always passes; its bytes change in place. */
  method XdpCorrupt(m: Maps, f: array<byte>)
    modifies m`packetCount, f
    ensures m.packetCount == Solo(m.everyN, old(m.packetCount)).1
    ensures f[..] == if Solo(m.everyN, old(m.packetCount)).0
                     then Flip(old(f[..]), m.corruptOffset, m.corruptMask)
                     else old(f[..])
  {
    hide FlipByte;
    if m.everyN == 0 { return; }
    m.packetCount := (m.packetCount + 1) % MODULUS;
    var c := m.packetCount;
    if c % m.everyN != 0 { return; }
    var off := m.corruptOffset % 0x1000;
    if off + 1 > f.Length { return; }
    f[off] := FlipByte(f[off], m.corruptMask);
  }

  // ---------------------------------------------------------------------
  // What corruption does to a frame
  // ---------------------------------------------------------------------

  /** The new byte, bit by bit: a bit of the old one is turned over exactly
      where the configured mask has a one. */
  lemma FlippedBits(b: byte, corruptMask: u32, j: nat)
    requires j < 8
    ensures Bit(FlipByte(b, corruptMask), j) == (if Bit(corruptMask, j) == 1 then 1 - Bit(b, j) else Bit(b, j))
  {
    hide Xor, Shr, Pow2;
    XorBits(b, corruptMask % 0x100, j);
    Pow2Of8();
    LowBits(corruptMask, 8, j);
  }

  lemma FlippedByteChanges(b: byte, corruptMask: u32)
    ensures FlipByte(b, corruptMask) != b <==> corruptMask % 0x100 != 0
    ensures FlipByte(FlipByte(b, corruptMask), corruptMask) == b
  {
    hide Xor;
    XorChangesIff(b, corruptMask % 0x100);
    XorCancels(b, corruptMask % 0x100);
  }

  lemma FlipIsLocal(f: bytes, corruptOffset: u32, corruptMask: u32)
    ensures var g := Flip(f, corruptOffset, corruptMask);
            && (g != f <==> corruptOffset % 0x1000 < |f| && corruptMask % 0x100 != 0)
            && (forall i :: 0 <= i < |f| && i != corruptOffset % 0x1000 ==> g[i] == f[i])
            && (corruptOffset % 0x1000 < |f| ==>
                  g[corruptOffset % 0x1000] == FlipByte(f[corruptOffset % 0x1000], corruptMask))
  {
    hide FlipByte;
    var off := corruptOffset % 0x1000;
    if off < |f| {
      FlippedByteChanges(f[off], corruptMask);
      UpdateChanges(f, off, FlipByte(f[off], corruptMask));
    }
  }

  lemma UpdateChanges(f: bytes, i: nat, b: byte)
    requires i < |f|
    ensures f[i := b] != f <==> b != f[i]
  {
    assert f[i := b][i] == b;
  }

  lemma FlipTwice(f: bytes, corruptOffset: u32, corruptMask: u32)
    ensures Flip(Flip(f, corruptOffset, corruptMask), corruptOffset, corruptMask) == f
  {
    hide FlipByte;
    var off := corruptOffset % 0x1000;
    if off < |f| {
      FlippedByteChanges(f[off], corruptMask);
      UpdateBack(f, off, FlipByte(f[off], corruptMask));
    }
  }

  lemma UpdateBack(f: bytes, i: nat, b: byte)
    requires i < |f|
    ensures f[i := b][i] == b && f[i := b][i := f[i]] == f
  {}

  // ---------------------------------------------------------------------
  // Corruption over a run
  // ---------------------------------------------------------------------

  /** The frames as they leave, `frames[i]` being the bytes of the packet that
      was judged i-th. The offset and mask maps are written once, at load. */
  function Corrupted(judged: seq<Record>, frames: seq<bytes>, corruptOffset: u32, corruptMask: u32): (out: seq<bytes>)
    requires |judged| == |frames|
    ensures |out| == |frames|
    ensures forall i :: 0 <= i < |frames| ==>
              out[i] == if Hit(judged[i]) then Flip(frames[i], corruptOffset, corruptMask) else frames[i]
  {
    seq(|frames|, i requires 0 <= i < |frames| =>
      if Hit(judged[i]) then Flip(frames[i], corruptOffset, corruptMask) else frames[i])
  }

  lemma HitIff(r: Record)
    requires r.ticket > 0
    ensures Hit(r) <==> r.modulus != 0 && r.ticket % r.modulus == 0
  {}

  lemma TicketsArePositive(n: u32, steps: seq<Step>, i: nat)
    requires Run(Initial(n), steps).taken < MODULUS && i < |Run(Initial(n), steps).judged|
    ensures Run(Initial(n), steps).judged[i].ticket > 0
  {
    hide Run;
    RunKeepsInv(n, steps);
    var s := Run(Initial(n), steps);
    assert s.judged[i].ticket in JudgedTickets(s.judged);
  }

  /** Corruption locality: in every interleaving of any number of CPUs, and any
      history of arming and disarming, a packet keeps its length. If it was
      judged while armed, N divides its ticket and the frame reaches the low 12
      bits of the offset, then exactly the bits of that byte where the low byte
      of the mask has a one are turned over; no other bit of any packet
      changes. */
  lemma CorruptionIsLocal(n: u32, steps: seq<Step>, frames: seq<bytes>, corruptOffset: u32, corruptMask: u32, i: nat)
    requires Run(Initial(n), steps).taken < MODULUS
    requires |frames| == |Run(Initial(n), steps).judged| && i < |frames|
    ensures var judged := Run(Initial(n), steps).judged;
            var r, f, g := judged[i], frames[i], Corrupted(judged, frames, corruptOffset, corruptMask)[i];
            var off := corruptOffset % 0x1000;
            var hit := r.modulus != 0 && r.ticket % r.modulus == 0 && off < |f|;
            && |g| == |f|
            && (g != f <==> hit && corruptMask % 0x100 != 0)
            && (forall k :: 0 <= k < |f| && !(hit && k == off) ==> g[k] == f[k])
            && (hit ==> forall j :: 0 <= j < 8 ==>
                  Bit(g[off], j) == if Bit(corruptMask, j) == 1 then 1 - Bit(f[off], j) else Bit(f[off], j))
  {
    hide Run, Flip, FlipByte, Bit;
    TicketsArePositive(n, steps, i);
    HitIff(Run(Initial(n), steps).judged[i]);
    var f, off := frames[i], corruptOffset % 0x1000;
    FlipIsLocal(f, corruptOffset, corruptMask);
    if off < |f| {
      forall j | 0 <= j < 8
        ensures Bit(FlipByte(f[off], corruptMask), j)
             == if Bit(corruptMask, j) == 1 then 1 - Bit(f[off], j) else Bit(f[off], j)
      {
        FlippedBits(f[off], corruptMask, j);
      }
    }
  }

  function Changed(before: seq<bytes>, after: seq<bytes>): nat
    requires |before| == |after|
  {
    if before == [] then 0
    else
      var k := |before| - 1;
      Changed(before[..k], after[..k]) + (if before[k] != after[k] then 1 else 0)
  }

  /** The settings can change every one of these frames. */
  predicate Reach(frames: seq<bytes>, corruptOffset: u32, corruptMask: u32) {
    corruptMask % 0x100 != 0 && forall i :: 0 <= i < |frames| ==> corruptOffset % 0x1000 < |frames[i]|
  }

  lemma {:induction false} ChangedAreHits(judged: seq<Record>, frames: seq<bytes>, corruptOffset: u32, corruptMask: u32)
    requires |judged| == |frames| && Reach(frames, corruptOffset, corruptMask)
    ensures Changed(frames, Corrupted(judged, frames, corruptOffset, corruptMask)) == Hits(judged)
    decreases |frames|
  {
    hide Flip, Hit;
    if frames != [] {
      var k := |frames| - 1;
      ChangedAreHits(judged[..k], frames[..k], corruptOffset, corruptMask);
      FlipIsLocal(frames[k], corruptOffset, corruptMask);
      assert Corrupted(judged, frames, corruptOffset, corruptMask)[..k]
          == Corrupted(judged[..k], frames[..k], corruptOffset, corruptMask);
    }
  }

  /** Exact corruption: of K ticketed packets that reach the offset, K / m leave
      changed if and only if no CPU judges a due ticket while disarmed. */
  lemma CorruptionIsExactIff(n: u32, steps: seq<Step>, m: u32, frames: seq<bytes>, corruptOffset: u32, corruptMask: u32)
    requires m > 0 && Toggles(n, steps, m)
    requires Run(Initial(n), steps).taken < MODULUS
    requires Quiescent(Run(Initial(n), steps))
    requires |frames| == |Run(Initial(n), steps).judged| && Reach(frames, corruptOffset, corruptMask)
    ensures var s := Run(Initial(n), steps);
            Changed(frames, Corrupted(s.judged, frames, corruptOffset, corruptMask)) == s.taken / m
            <==> NoneDueAtDisarm(n, steps, m)
  {
    hide Run, Hits, Changed, Corrupted, Quiescent, Toggles, NoneDueAtDisarm, Reach;
    ChangedAreHits(Run(Initial(n), steps).judged, frames, corruptOffset, corruptMask);
    HitsAreExactIff(n, steps, m);
  }

  /** Corrupting the same packets twice with the same settings restores them. */
  lemma CorruptionIsAnInvolution(judged: seq<Record>, frames: seq<bytes>, corruptOffset: u32, corruptMask: u32)
    requires |judged| == |frames|
    ensures var once := Corrupted(judged, frames, corruptOffset, corruptMask);
            Corrupted(judged, once, corruptOffset, corruptMask) == frames
  {
    hide Flip, Hit;
    var once := Corrupted(judged, frames, corruptOffset, corruptMask);
    forall i | 0 <= i < |frames|
      ensures Corrupted(judged, once, corruptOffset, corruptMask)[i] == frames[i]
    {
      FlipTwice(frames[i], corruptOffset, corruptMask);
    }
  }
}
