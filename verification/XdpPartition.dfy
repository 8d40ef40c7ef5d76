/** The network-partition program: a bounds-checked walk over an Ethernet
    frame, and the declarative match on packets that it implements. */
module XdpPartition {
  import opened Words
  import opened Bytes

  type nibble = x: int | 0 <= x < 16

  const ETH_P_IP: u16 := 0x0800
  const ETH_P_IPV6: u16 := 0x86DD
  const ETH_P_8021Q: u16 := 0x8100
  const ETH_P_8021AD: u16 := 0x88A8
  const IPPROTO_TCP: byte := 6
  const IPPROTO_UDP: byte := 17
  const IPPROTO_FRAGMENT: byte := 44

  /** The config maps. Addresses are in network byte order, as on the wire. */
  datatype Config = Config(enabled: u32, srcIp: bytes, srcIp6: bytes, srcPort: u32)

  predicate IsTag(proto: int) {
    proto == ETH_P_8021Q || proto == ETH_P_8021AD
  }

  function U16(s: bytes, i: nat): u16
    requires i + 1 < |s|
  {
    var high: int, low: int := s[i], s[i + 1];
    high * 256 + low
  }

  // ---------------------------------------------------------------------
  // The decision, layer by layer
  // ---------------------------------------------------------------------

  /** Two tags at most are peeled. */
  const MAX_TAGS: nat := 2

  /** UDP or TCP with its whole fixed header present. */
  predicate HasPorts(proto: byte, l4: bytes) {
    (proto == IPPROTO_UDP && |l4| >= 8) || (proto == IPPROTO_TCP && |l4| >= 20)
  }

  predicate PortMatches(port: u32, proto: byte, l4: bytes) {
    HasPorts(proto, l4) && U16(l4, 0) == port % 0x1_0000
  }

  function HeaderLen(ip: bytes): nat
    requires ip != []
  {
    (ip[0] % 16) * 4
  }

  predicate DropsV4(cfg: Config, ip: bytes) {
    && |ip| >= 20
    && HeaderLen(ip) >= 20
    && |ip| >= HeaderLen(ip)
    && ip[12..16] == cfg.srcIp
    && (cfg.srcPort == 0
        || (U16(ip, 6) % 0x2000 == 0 && PortMatches(cfg.srcPort, ip[9], ip[HeaderLen(ip)..])))
  }

  predicate DropsV6Payload(cfg: Config, nexthdr: byte, l4: bytes) {
    if nexthdr == IPPROTO_FRAGMENT then
      && |l4| >= 8
      && U16(l4, 2) / 8 == 0
      && PortMatches(cfg.srcPort, l4[0], l4[8..])
    else PortMatches(cfg.srcPort, nexthdr, l4)
  }

  predicate DropsV6(cfg: Config, ip6: bytes) {
    && |ip6| >= 40
    && ip6[8..24] == cfg.srcIp6
    && (cfg.srcPort == 0 || DropsV6Payload(cfg, ip6[6], ip6[40..]))
  }

  predicate DropsL3(cfg: Config, proto: u16, l3: bytes) {
    if proto == ETH_P_IP then DropsV4(cfg, l3)
    else if proto == ETH_P_IPV6 then DropsV6(cfg, l3)
    else false
  }

  predicate DropsTagged(cfg: Config, tags: nat, proto: u16, rest: bytes) {
    if tags > 0 && IsTag(proto) then |rest| >= 4 && DropsTagged(cfg, tags - 1, U16(rest, 2), rest[4..])
    else DropsL3(cfg, proto, rest)
  }

  predicate Drops(cfg: Config, frame: bytes) {
    cfg.enabled != 0 && |frame| >= 14 && DropsTagged(cfg, MAX_TAGS, U16(frame, 12), frame[14..])
  }

  // ---------------------------------------------------------------------
  // The program
  // ---------------------------------------------------------------------

  predicate WellConfigured(cfg: Config) {
    |cfg.srcIp| == 4 && |cfg.srcIp6| == 16
  }

  /** `port` is only written when `ok`. */
  method ExtractSrcPort(frame: bytes, l4: nat, proto: byte) returns (ok: bool, port: u16)
    requires l4 <= |frame|
    ensures ok <==> HasPorts(proto, frame[l4..])
    ensures ok ==> port == U16(frame[l4..], 0)
  {
    port := 0;
    if proto == IPPROTO_UDP {
      if l4 + 8 > |frame| { return false, port; }
      return true, U16(frame, l4);
    }
    if proto == IPPROTO_TCP {
      if l4 + 20 > |frame| { return false, port; }
      return true, U16(frame, l4);
    }
    ok := false;
  }

  method SameAddress6(frame: bytes, at: nat, want: bytes) returns (same: bool)
    requires |want| == 16 && at + 16 <= |frame|
    ensures same <==> frame[at..at + 16] == want
  {
    same := true;
    var i := 0;
    while i < 16
      invariant 0 <= i <= 16
      invariant same <==> frame[at..at + i] == want[..i]
      invariant same || frame[at..at + 16] != want
    {
      if frame[at + i] != want[i] {
        assert frame[at..at + 16][i] == frame[at + i];
        return false;
      }
      assert frame[at..at + i + 1] == frame[at..at + i] + [frame[at + i]];
      assert want[..i + 1] == want[..i] + [want[i]];
      i := i + 1;
    }
    assert want[..16] == want;
  }

  /** Every byte the program reads lies inside the frame, on any frame: each
      index below is checked against the bounds test before it. */
  method Program(cfg: Config, frame: bytes) returns (drop: bool)
    requires WellConfigured(cfg)
    ensures drop <==> Drops(cfg, frame)
  {
    if cfg.enabled == 0 { return false; }
    if 14 > |frame| { return false; }
    var proto := U16(frame, 12);
    var l3 := 14;
    ghost var tags := MAX_TAGS;
    if IsTag(proto) {
      if l3 + 4 > |frame| { return false; }
      PeelTag(cfg, tags, proto, frame, l3);
      proto := U16(frame, l3 + 2);
      l3 := l3 + 4;
      tags := tags - 1;
      if IsTag(proto) {
        if l3 + 4 > |frame| { return false; }
        PeelTag(cfg, tags, proto, frame, l3);
        proto := U16(frame, l3 + 2);
        l3 := l3 + 4;
        tags := tags - 1;
      }
    }
    assert Drops(cfg, frame) == DropsTagged(cfg, tags, proto, frame[l3..]) == DropsL3(cfg, proto, frame[l3..]);
    if proto == ETH_P_IP {
      drop := ProgramV4(cfg, frame, l3);
    } else if proto == ETH_P_IPV6 {
      drop := ProgramV6(cfg, frame, l3);
    } else {
      drop := false;
    }
  }

  lemma PeelTag(cfg: Config, tags: nat, proto: u16, frame: bytes, l3: nat)
    requires tags > 0 && IsTag(proto) && l3 + 4 <= |frame|
    ensures DropsTagged(cfg, tags, proto, frame[l3..])
         == DropsTagged(cfg, tags - 1, U16(frame, l3 + 2), frame[l3 + 4..])
  {
    assert frame[l3..][4..] == frame[l3 + 4..];
  }

  method ProgramV4(cfg: Config, frame: bytes, l3: nat) returns (drop: bool)
    requires WellConfigured(cfg) && l3 <= |frame|
    ensures drop <==> DropsV4(cfg, frame[l3..])
  {
    ghost var ip := frame[l3..];
    if l3 + 20 > |frame| { return false; }
    var ihl := frame[l3] % 16;
    if ihl < 5 { return false; }
    var l4 := l3 + ihl * 4;
    if l4 > |frame| { return false; }
    assert frame[l3 + 12..l3 + 16] == ip[12..16];
    if frame[l3 + 12..l3 + 16] != cfg.srcIp { return false; }
    if cfg.srcPort == 0 { return true; }
    if U16(frame, l3 + 6) % 0x2000 != 0 { return false; }
    var ok, port := ExtractSrcPort(frame, l4, frame[l3 + 9]);
    assert frame[l4..] == ip[HeaderLen(ip)..];
    if !ok { return false; }
    drop := port == cfg.srcPort % 0x1_0000;
  }

  method ProgramV6(cfg: Config, frame: bytes, l3: nat) returns (drop: bool)
    requires WellConfigured(cfg) && l3 <= |frame|
    ensures drop <==> DropsV6(cfg, frame[l3..])
  {
    ghost var ip6 := frame[l3..];
    if l3 + 40 > |frame| { return false; }
    var same := SameAddress6(frame, l3 + 8, cfg.srcIp6);
    assert frame[l3 + 8..l3 + 24] == ip6[8..24];
    if !same { return false; }
    if cfg.srcPort == 0 { return true; }
    var nexthdr := frame[l3 + 6];
    var l4 := l3 + 40;
    assert frame[l4..] == ip6[40..];
    if nexthdr == IPPROTO_FRAGMENT {
      if l4 + 8 > |frame| { return false; }
      if U16(frame, l4 + 2) / 8 != 0 { return false; }
      nexthdr := frame[l4];
      assert frame[l4 + 8..] == ip6[40..][8..];
      l4 := l4 + 8;
    }
    var ok, port := ExtractSrcPort(frame, l4, nexthdr);
    if !ok { return false; }
    drop := port == cfg.srcPort % 0x1_0000;
  }
}
