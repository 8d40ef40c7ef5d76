/** What the partition program means: packets as their senders see them, their
    encoding, and the match the program implements on every frame. */
module PartitionMatch {
  import opened Words
  import opened Bytes
  import opened XdpPartition

  // ---------------------------------------------------------------------
  // Packets and their encoding
  // ---------------------------------------------------------------------

  /** An 802.1Q or 802.1ad tag. */
  datatype Vlan = Vlan(tpid: u16, tci: u16)

  /** What an IP packet carries: UDP and TCP by their ports, the rest of the
      header and the data following; a UDP or TCP header the frame ends inside
      of; any other protocol; and, in a later fragment, data without a header. */
  datatype L4 =
    | Udp(srcPort: u16, dstPort: u16, more: bytes)
    | Tcp(srcPort: u16, dstPort: u16, more: bytes)
    | Truncated(protocol: byte, partial: bytes)
    | OtherL4(protocol: byte, payload: bytes)
    | Later(protocol: byte, data: bytes)

  type u3 = x: int | 0 <= x < 8
  type u13 = x: int | 0 <= x < 0x2000

  /** Section 4.5 of RFC 8200; the next-header field is the payload's. */
  datatype Fragment = Fragment(reserved: byte, offset: u13, flags: u3, identification: bytes)

  /** What follows the IPv6 base header; `Cut` is a Fragment header the frame
      ends inside of. */
  datatype V6Rest =
    | Upper(l4: L4)
    | Fragmented(fragment: Fragment, l4: L4)
    | Cut(partial: bytes)

  /** Section 3.1 of RFC 791 and section 3 of RFC 8200. `lead` holds the fields
      in front that the program does not look at. */
  datatype L3 =
    | V4(version: nibble, lead: bytes, flags: u3, offset: u13, ttl: byte, checksum: bytes,
         src: bytes, dst: bytes, options: bytes, l4: L4)
    | V6(lead: bytes, hopLimit: byte, src: bytes, dst: bytes, rest: V6Rest)
    | Other(etherType: u16, payload: bytes)

  datatype Packet = Packet(macs: bytes, tags: seq<Vlan>, l3: L3)

  function Protocol(l4: L4): byte {
    match l4
    case Udp(_, _, _) => 17
    case Tcp(_, _, _) => 6
    case Truncated(protocol, _) => protocol
    case OtherL4(protocol, _) => protocol
    case Later(protocol, _) => protocol
  }

  /** The fixed headers are 8 and 20 bytes, four of them the two ports. */
  predicate ValidL4(l4: L4, initial: bool) {
    match l4
    case Udp(_, _, more) => initial && |more| >= 4
    case Tcp(_, _, more) => initial && |more| >= 16
    case Truncated(protocol, partial) =>
      initial && ((protocol == 17 && |partial| < 8) || (protocol == 6 && |partial| < 20))
    case OtherL4(protocol, _) => initial && protocol != 17 && protocol != 6
    case Later(_, _) => !initial
  }

  predicate ValidRest(rest: V6Rest) {
    match rest
    case Upper(l4) => ValidL4(l4, true) && Protocol(l4) != IPPROTO_FRAGMENT
    case Fragmented(f, l4) => |f.identification| == 4 && ValidL4(l4, f.offset == 0)
    case Cut(partial) => |partial| < 8
  }

  predicate ValidL3(l3: L3) {
    match l3
    case V4(_, lead, _, offset, _, checksum, src, dst, options, l4) =>
      && |lead| == 5 && |checksum| == 2 && |src| == 4 && |dst| == 4
      && |options| % 4 == 0 && |options| <= 40
      && ValidL4(l4, offset == 0)
    case V6(lead, _, src, dst, rest) =>
      |lead| == 6 && |src| == 16 && |dst| == 16 && ValidRest(rest)
    case Other(etherType, _) =>
      etherType != ETH_P_IP && etherType != ETH_P_IPV6 && !IsTag(etherType)
  }

  predicate Valid(p: Packet) {
    && |p.macs| == 12
    && (forall i :: 0 <= i < |p.tags| ==> IsTag(p.tags[i].tpid))
    && ValidL3(p.l3)
  }

  function Be16(x: u16): (s: bytes)
    ensures |s| == 2 && U16(s, 0) == x
  {
    [x / 256, x % 256]
  }

  function EncodeL4(l4: L4): bytes {
    match l4
    case Udp(srcPort, dstPort, more) => Be16(srcPort) + Be16(dstPort) + more
    case Tcp(srcPort, dstPort, more) => Be16(srcPort) + Be16(dstPort) + more
    case Truncated(_, partial) => partial
    case OtherL4(_, payload) => payload
    case Later(_, data) => data
  }

  function NextHeader(rest: V6Rest): byte {
    if rest.Upper? then Protocol(rest.l4) else IPPROTO_FRAGMENT
  }

  function EncodeRest(rest: V6Rest): bytes {
    match rest
    case Upper(l4) => EncodeL4(l4)
    case Fragmented(f, l4) =>
      [Protocol(l4), f.reserved] + Be16(f.offset * 8 + f.flags) + f.identification + EncodeL4(l4)
    case Cut(partial) => partial
  }

  function V4Bytes(first: byte, lead: bytes, fragment: bytes, ttl: byte, protocol: byte, checksum: bytes,
                   src: bytes, dst: bytes, options: bytes, data: bytes): bytes
  {
    [first] + lead + fragment + [ttl, protocol] + checksum + src + dst + options + data
  }

  function EncodeL3(l3: L3): bytes
    requires ValidL3(l3)
  {
    match l3
    case V4(version, lead, flags, offset, ttl, checksum, src, dst, options, l4) =>
      V4Bytes(version * 16 + (5 + |options| / 4), lead, Be16(flags * 0x2000 + offset), ttl, Protocol(l4), checksum,
              src, dst, options, EncodeL4(l4))
    case V6(lead, hopLimit, src, dst, rest) =>
      lead + [NextHeader(rest), hopLimit] + src + dst + EncodeRest(rest)
    case Other(_, payload) => payload
  }

  function EtherType(l3: L3): u16 {
    match l3
    case V4(_, _, _, _, _, _, _, _, _, _) => ETH_P_IP
    case V6(_, _, _, _, _) => ETH_P_IPV6
    case Other(etherType, _) => etherType
  }

  /** Everything from the first EtherType position on. */
  function EncodeTagged(tags: seq<Vlan>, l3: L3): (s: bytes)
    requires ValidL3(l3)
    ensures |s| >= 2
  {
    if tags == [] then Be16(EtherType(l3)) + EncodeL3(l3)
    else Be16(tags[0].tpid) + Be16(tags[0].tci) + EncodeTagged(tags[1..], l3)
  }

  function Encode(p: Packet): bytes
    requires Valid(p)
  {
    p.macs + EncodeTagged(p.tags, p.l3)
  }

  // ---------------------------------------------------------------------
  // The match
  // ---------------------------------------------------------------------

  predicate ComesFrom(l3: L3, v4: bytes, v6: bytes) {
    match l3
    case V4(_, _, _, _, _, _, src, _, _, _) => src == v4
    case V6(_, _, src, _, _) => src == v6
    case Other(_, _) => false
  }

  /** The packet carries a whole UDP or TCP header with this source port. */
  predicate ShowsPort(l4: L4, port: u16) {
    (l4.Udp? || l4.Tcp?) && l4.srcPort == port
  }

  /** Any port will do, or the packet shows this source port; only its low 16
      bits are compared. */
  predicate FromPort(l3: L3, port: u32) {
    || port == 0
    || (l3.V4? && ShowsPort(l3.l4, port % 0x1_0000))
    || (l3.V6? && !l3.rest.Cut? && ShowsPort(l3.rest.l4, port % 0x1_0000))
  }

  predicate Matches(cfg: Config, p: Packet) {
    |p.tags| <= 2 && ComesFrom(p.l3, cfg.srcIp, cfg.srcIp6) && FromPort(p.l3, cfg.srcPort)
  }

  // ---------------------------------------------------------------------
  // Encoded packets are dropped exactly when they match
  // ---------------------------------------------------------------------

  lemma LowNibble(high: int, low: int)
    requires 0 <= low < 16
    ensures (high * 16 + low) % 16 == low
  {}

  lemma HeaderLenIs(s: bytes, version: nibble, words: nibble)
    requires s != [] && s[0] == version * 16 + words
    ensures HeaderLen(s) == 4 * words
  {
    LowNibble(version, words);
  }

  lemma U16Is(s: bytes, i: nat, x: u16)
    requires i + 1 < |s| && s[i] == Be16(x)[0] && s[i + 1] == Be16(x)[1]
    ensures U16(s, i) == x
  {}

  lemma V4BytesLayout(first: byte, lead: bytes, fragment: bytes, ttl: byte, protocol: byte, checksum: bytes,
                      src: bytes, dst: bytes, options: bytes, data: bytes)
    requires |lead| == 5 && |fragment| == 2 && |checksum| == 2 && |src| == 4 && |dst| == 4
    ensures var s := V4Bytes(first, lead, fragment, ttl, protocol, checksum, src, dst, options, data);
            && |s| == 20 + |options| + |data|
            && s[0] == first && s[6] == fragment[0] && s[7] == fragment[1] && s[9] == protocol
            && s[12..16] == src && s[20 + |options|..] == data
  {
    var front := [first] + lead + fragment + [ttl, protocol] + checksum;
    var s := front + src + dst + options + data;
    assert forall i :: 0 <= i < 12 ==> s[i] == front[i];
    assert s[12..16] == src && s[20 + |options|..] == data;
  }

  lemma V4Layout(l3: L3)
    requires l3.V4? && ValidL3(l3)
    ensures var s := EncodeL3(l3);
            && |s| >= 20 && HeaderLen(s) == 20 + |l3.options| <= |s|
            && s[12..16] == l3.src && s[9] == Protocol(l3.l4)
            && U16(s, 6) == l3.flags * 0x2000 + l3.offset
            && s[20 + |l3.options|..] == EncodeL4(l3.l4)
  {
    hide V4Bytes, HeaderLen, U16, Be16, EncodeL4, Protocol, ValidL4;
    var fragment: u16 := l3.flags * 0x2000 + l3.offset;
    var words := 5 + |l3.options| / 4;
    V4BytesLayout(l3.version * 16 + words, l3.lead, Be16(fragment), l3.ttl, Protocol(l3.l4), l3.checksum,
                  l3.src, l3.dst, l3.options, EncodeL4(l3.l4));
    HeaderLenIs(EncodeL3(l3), l3.version, words);
    U16Is(EncodeL3(l3), 6, fragment);
  }

  lemma V6Layout(l3: L3)
    requires l3.V6? && ValidL3(l3)
    ensures var s := EncodeL3(l3);
            && |s| >= 40 && s[8..24] == l3.src && s[6] == NextHeader(l3.rest) && s[40..] == EncodeRest(l3.rest)
  {
    hide EncodeRest, NextHeader, ValidRest;
    var s := EncodeL3(l3);
    assert s[8..24] == l3.src;
    assert s[40..] == EncodeRest(l3.rest);
  }

  lemma FragmentLayout(f: Fragment, l4: L4)
    requires |f.identification| == 4
    ensures var s := EncodeRest(Fragmented(f, l4));
            && |s| >= 8 && s[0] == Protocol(l4) && U16(s, 2) == f.offset * 8 + f.flags && s[8..] == EncodeL4(l4)
  {
    hide Protocol, EncodeL4, U16, Be16;
    var s := EncodeRest(Fragmented(f, l4));
    assert s[2] == Be16(f.offset * 8 + f.flags)[0] && s[3] == Be16(f.offset * 8 + f.flags)[1];
    U16Is(s, 2, f.offset * 8 + f.flags);
    assert s[8..] == EncodeL4(l4);
  }

  /** The transport header as the program reads it: its first two bytes are the
      source port, if a whole header is there. */
  lemma PortIsShown(port: u32, l4: L4)
    requires ValidL4(l4, true)
    ensures PortMatches(port, Protocol(l4), EncodeL4(l4)) <==> ShowsPort(l4, port % 0x1_0000)
  {
    hide U16, Be16;
    if l4.Udp? || l4.Tcp? { PortLayout(l4.srcPort, l4.dstPort, l4.more); }
  }

  lemma PortLayout(srcPort: u16, dstPort: u16, more: bytes)
    ensures U16(Be16(srcPort) + Be16(dstPort) + more, 0) == srcPort
  {
    U16Is(Be16(srcPort) + Be16(dstPort) + more, 0, srcPort);
  }

  lemma OffsetOf(high: int, low: int, m: int)
    requires 0 <= low < m
    ensures (high * m + low) % m == low && (high * m + low) / m == high
  {
    QuotientIs(high * m + low, m, high, low);
  }

  lemma V4DropsIffMatch(cfg: Config, l3: L3)
    requires l3.V4? && ValidL3(l3)
    ensures DropsV4(cfg, EncodeL3(l3)) <==> l3.src == cfg.srcIp && FromPort(l3, cfg.srcPort)
  {
    hide EncodeL3, EncodeL4, Protocol, PortMatches, U16, HeaderLen;
    V4Layout(l3);
    OffsetOf(l3.flags, l3.offset, 0x2000);
    if l3.offset == 0 { PortIsShown(cfg.srcPort, l3.l4); }
  }

  lemma V6DropsIffMatch(cfg: Config, l3: L3)
    requires l3.V6? && ValidL3(l3)
    ensures DropsV6(cfg, EncodeL3(l3)) <==> l3.src == cfg.srcIp6 && FromPort(l3, cfg.srcPort)
  {
    hide EncodeL3, EncodeRest, DropsV6Payload;
    V6Layout(l3);
    RestDropsIffShown(cfg, l3.rest);
  }

  lemma RestDropsIffShown(cfg: Config, rest: V6Rest)
    requires ValidRest(rest)
    ensures DropsV6Payload(cfg, NextHeader(rest), EncodeRest(rest))
            <==> !rest.Cut? && ShowsPort(rest.l4, cfg.srcPort % 0x1_0000)
  {
    hide EncodeL4, Protocol, PortMatches, U16;
    match rest
    case Upper(l4) => PortIsShown(cfg.srcPort, l4);
    case Fragmented(f, l4) =>
      FragmentLayout(f, l4);
      OffsetOf(f.offset, f.flags, 8);
      if f.offset == 0 { PortIsShown(cfg.srcPort, l4); }
    case Cut(_) =>
  }

  lemma L3DropsIffMatch(cfg: Config, l3: L3)
    requires ValidL3(l3)
    ensures DropsL3(cfg, EtherType(l3), EncodeL3(l3))
            <==> ComesFrom(l3, cfg.srcIp, cfg.srcIp6) && FromPort(l3, cfg.srcPort)
  {
    hide EncodeL3, DropsV4, DropsV6, FromPort;
    match l3
    case V4(_, _, _, _, _, _, _, _, _, _) => V4DropsIffMatch(cfg, l3);
    case V6(_, _, _, _, _) => V6DropsIffMatch(cfg, l3);
    case Other(_, _) =>
  }

  lemma {:induction false} TaggedDropsIffMatch(cfg: Config, peels: nat, tags: seq<Vlan>, l3: L3)
    requires ValidL3(l3)
    requires forall i :: 0 <= i < |tags| ==> IsTag(tags[i].tpid)
    ensures var s := EncodeTagged(tags, l3);
            DropsTagged(cfg, peels, U16(s, 0), s[2..])
            <==> |tags| <= peels && ComesFrom(l3, cfg.srcIp, cfg.srcIp6) && FromPort(l3, cfg.srcPort)
    decreases |tags|
  {
    hide EncodeL3, ComesFrom, FromPort, DropsL3, Be16, U16, ValidL3, EtherType;
    var s := EncodeTagged(tags, l3);
    if tags == [] {
      TypeLayout(EtherType(l3), EncodeL3(l3));
      TypeIsNotTag(l3);
      L3DropsIffMatch(cfg, l3);
    } else {
      var inner := EncodeTagged(tags[1..], l3);
      assert IsTag(tags[0].tpid);
      TagLayout(tags[0], inner);
      if peels > 0 {
        TaggedDropsIffMatch(cfg, peels - 1, tags[1..], l3);
      } else {
        TagIsNotL3(cfg, tags[0].tpid, s[2..]);
      }
    }
  }

  lemma TypeIsNotTag(l3: L3)
    requires ValidL3(l3)
    ensures !IsTag(EtherType(l3))
  {}

  lemma TypeLayout(proto: u16, rest: bytes)
    ensures var s := Be16(proto) + rest; U16(s, 0) == proto && s[2..] == rest
  {}

  lemma TagLayout(tag: Vlan, inner: bytes)
    requires |inner| >= 2
    ensures var s := Be16(tag.tpid) + Be16(tag.tci) + inner;
            && U16(s, 0) == tag.tpid
            && |s[2..]| >= 4 && U16(s[2..], 2) == U16(inner, 0)
            && s[2..][4..] == inner[2..]
  {
    var s := Be16(tag.tpid) + Be16(tag.tci) + inner;
    assert s[2..] == Be16(tag.tci) + inner;
  }

  lemma TagIsNotL3(cfg: Config, proto: u16, l3: bytes)
    requires IsTag(proto)
    ensures !DropsL3(cfg, proto, l3)
  {}

  /** Partition refinement: an encoded packet, with any number of tags, is
      dropped exactly when the program is enabled, at most two tags hide the IP
      header, the source is the configured one, and either the port is zero or
      the packet carries a whole UDP or TCP header with that source port. */
  lemma EncodedDropsIffMatch(cfg: Config, p: Packet)
    requires Valid(p)
    ensures Drops(cfg, Encode(p)) <==> cfg.enabled != 0 && Matches(cfg, p)
  {
    hide EncodeTagged, DropsTagged, ComesFrom, FromPort;
    var s := EncodeTagged(p.tags, p.l3);
    var frame := Encode(p);
    assert U16(frame, 12) == U16(s, 0) && frame[14..] == s[2..];
    TaggedDropsIffMatch(cfg, MAX_TAGS, p.tags, p.l3);
  }

  // ---------------------------------------------------------------------
  // Every dropped frame is an encoded packet
  // ---------------------------------------------------------------------

  lemma Be16OfU16(s: bytes, i: nat)
    requires i + 1 < |s|
    ensures Be16(U16(s, i)) == s[i..i + 2]
  {
    assert s[i..i + 2] == [s[i], s[i + 1]];
  }

  function DecodeL4(protocol: byte, s: bytes, initial: bool): L4 {
    if !initial then Later(protocol, s)
    else if protocol == 17 then
      if |s| < 8 then Truncated(17, s) else Udp(U16(s, 0), U16(s, 2), s[4..])
    else if protocol == 6 then
      if |s| < 20 then Truncated(6, s) else Tcp(U16(s, 0), U16(s, 2), s[4..])
    else OtherL4(protocol, s)
  }

  lemma DecodedL4(protocol: byte, s: bytes, initial: bool)
    ensures var l4 := DecodeL4(protocol, s, initial);
            ValidL4(l4, initial) && Protocol(l4) == protocol && EncodeL4(l4) == s
  {
    hide U16, Be16;
    if |s| >= 4 {
      Be16OfU16(s, 0);
      Be16OfU16(s, 2);
      assert s[0..2] + s[2..4] + s[4..] == s;
    }
  }

  function DecodeV4(ip: bytes): L3
    requires |ip| >= 20 && 20 <= HeaderLen(ip) <= |ip|
  {
    V4(ip[0] / 16, ip[1..6], U16(ip, 6) / 0x2000, U16(ip, 6) % 0x2000, ip[8], ip[10..12], ip[12..16], ip[16..20],
       ip[20..HeaderLen(ip)], DecodeL4(ip[9], ip[HeaderLen(ip)..], U16(ip, 6) % 0x2000 == 0))
  }

  lemma JoinSlices(s: bytes, i: nat, j: nat)
    requires i <= j <= |s|
    ensures s[..i] + s[i..j] == s[..j]
  {}

  lemma V4Pieces(ip: bytes, h: nat)
    requires 20 <= h <= |ip|
    ensures V4Bytes(ip[0], ip[1..6], ip[6..8], ip[8], ip[9], ip[10..12], ip[12..16], ip[16..20], ip[20..h], ip[h..])
         == ip
  {
    assert [ip[0]] == ip[..1] && [ip[8], ip[9]] == ip[8..10];
    JoinSlices(ip, 1, 6);
    JoinSlices(ip, 6, 8);
    JoinSlices(ip, 8, 10);
    JoinSlices(ip, 10, 12);
    JoinSlices(ip, 12, 16);
    JoinSlices(ip, 16, 20);
    JoinSlices(ip, 20, h);
    JoinSlices(ip, h, |ip|);
    assert ip[..|ip|] == ip && ip[h..|ip|] == ip[h..];
  }

  lemma OptionWords(ip: bytes)
    requires ip != [] && HeaderLen(ip) >= 20
    ensures var options := HeaderLen(ip) - 20;
            options % 4 == 0 && options <= 40 && ip[0] / 16 * 16 + (5 + options / 4) == ip[0]
  {
    var words: int := ip[0] % 16;
    assert (words * 4 - 20) / 4 == words - 5;
  }

  lemma DecodedV4(ip: bytes)
    requires |ip| >= 20 && 20 <= HeaderLen(ip) <= |ip|
    ensures ValidL3(DecodeV4(ip)) && EncodeL3(DecodeV4(ip)) == ip
  {
    hide V4Bytes, HeaderLen, U16, Be16, DecodeL4, EncodeL4, Protocol, ValidL4;
    var h, l3 := HeaderLen(ip), DecodeV4(ip);
    OptionWords(ip);
    assert l3.flags * 0x2000 + l3.offset == U16(ip, 6);
    DecodedL4(ip[9], ip[h..], l3.offset == 0);
    Be16OfU16(ip, 6);
    V4Pieces(ip, h);
  }

  function DecodeRest(nexthdr: byte, s: bytes): V6Rest {
    if nexthdr != IPPROTO_FRAGMENT then Upper(DecodeL4(nexthdr, s, true))
    else if |s| < 8 then Cut(s)
    else
      Fragmented(Fragment(s[1], U16(s, 2) / 8, U16(s, 2) % 8, s[4..8]), DecodeL4(s[0], s[8..], U16(s, 2) / 8 == 0))
  }

  lemma DecodedRest(nexthdr: byte, s: bytes)
    ensures var rest := DecodeRest(nexthdr, s);
            ValidRest(rest) && NextHeader(rest) == nexthdr && EncodeRest(rest) == s
  {
    if nexthdr != IPPROTO_FRAGMENT {
      DecodedL4(nexthdr, s, true);
    } else if |s| >= 8 {
      DecodedL4(s[0], s[8..], U16(s, 2) / 8 == 0);
      assert (U16(s, 2) / 8) * 8 + U16(s, 2) % 8 == U16(s, 2);
      hide U16, Be16, DecodeL4, EncodeL4, Protocol, ValidL4;
      Be16OfU16(s, 2);
      assert [s[0], s[1]] + s[2..4] == s[..4] && s[..4] + s[4..8] == s[..8] && s[..8] + s[8..] == s;
    }
  }

  function DecodeV6(ip6: bytes): L3
    requires |ip6| >= 40
  {
    V6(ip6[..6], ip6[7], ip6[8..24], ip6[24..40], DecodeRest(ip6[6], ip6[40..]))
  }

  lemma DecodedV6(ip6: bytes)
    requires |ip6| >= 40
    ensures ValidL3(DecodeV6(ip6)) && EncodeL3(DecodeV6(ip6)) == ip6
  {
    hide DecodeRest, EncodeRest, NextHeader, ValidRest;
    DecodedRest(ip6[6], ip6[40..]);
    assert ip6[..6] + [ip6[6], ip6[7]] == ip6[..8] && ip6[..8] + ip6[8..24] == ip6[..24];
    assert ip6[..24] + ip6[24..40] == ip6[..40] && ip6[..40] + ip6[40..] == ip6;
  }

  lemma DroppedL3Decodes(cfg: Config, proto: u16, s: bytes) returns (l3: L3)
    requires DropsL3(cfg, proto, s)
    ensures ValidL3(l3) && EtherType(l3) == proto && EncodeL3(l3) == s
  {
    if proto == ETH_P_IP {
      DecodedV4(s);
      l3 := DecodeV4(s);
    } else {
      DecodedV6(s);
      l3 := DecodeV6(s);
    }
  }

  lemma {:induction false} DroppedTagsDecode(cfg: Config, peels: nat, proto: u16, rest: bytes)
    returns (tags: seq<Vlan>, l3: L3)
    requires DropsTagged(cfg, peels, proto, rest)
    ensures ValidL3(l3) && EncodeTagged(tags, l3) == Be16(proto) + rest
    ensures forall i :: 0 <= i < |tags| ==> IsTag(tags[i].tpid)
    decreases peels
  {
    hide EncodeL3, DropsL3, ValidL3;
    if peels > 0 && IsTag(proto) {
      var inner, l3' := DroppedTagsDecode(cfg, peels - 1, U16(rest, 2), rest[4..]);
      var tag := Vlan(proto, U16(rest, 0));
      tags, l3 := [tag] + inner, l3';
      assert tags[1..] == inner;
      Be16OfU16(rest, 0);
      Be16OfU16(rest, 2);
      assert rest[0..2] + (rest[2..4] + rest[4..]) == rest;
      assert Be16(proto) + rest[0..2] + (rest[2..4] + rest[4..]) == Be16(proto) + rest;
    } else {
      tags := [];
      l3 := DroppedL3Decodes(cfg, proto, rest);
    }
  }

  lemma DroppedFrameDecodes(cfg: Config, frame: bytes) returns (p: Packet)
    requires Drops(cfg, frame)
    ensures Valid(p) && Encode(p) == frame
  {
    hide DropsTagged, EncodeTagged, ValidL3;
    var tags, l3 := DroppedTagsDecode(cfg, MAX_TAGS, U16(frame, 12), frame[14..]);
    p := Packet(frame[..12], tags, l3);
    Be16OfU16(frame, 12);
    assert frame[..12] + (frame[12..14] + frame[14..]) == frame;
  }

  /** On every frame whatsoever: the program drops it exactly when it is
      enabled and the frame is the encoding of a packet that matches. */
  lemma DropsIffMatchingPacket(cfg: Config, frame: bytes)
    ensures Drops(cfg, frame) <==>
            cfg.enabled != 0 && exists p: Packet :: Valid(p) && Encode(p) == frame && Matches(cfg, p)
  {
    hide Drops, Matches, Encode, Valid;
    if Drops(cfg, frame) {
      var p := DroppedFrameDecodes(cfg, frame);
      EncodedDropsIffMatch(cfg, p);
    }
    forall p: Packet | Valid(p) && Encode(p) == frame && Matches(cfg, p) && cfg.enabled != 0
      ensures Drops(cfg, frame)
    {
      EncodedDropsIffMatch(cfg, p);
    }
  }

  // ---------------------------------------------------------------------
  // One configured peer
  // ---------------------------------------------------------------------

  /** The peer an injector is built for: one address, of one family. */
  datatype Peer = PeerV4(address: bytes) | PeerV6(address: bytes)

  const ZERO4: bytes := [0, 0, 0, 0]
  const ZERO6: bytes := [0, 0, 0, 0, 0, 0, 0, 0, 0, 0, 0, 0, 0, 0, 0, 0]

  /** Only the map of the peer's own family is written; the other stays zero. */
  function ConfigFor(peer: Peer, port: u16): Config {
    match peer
    case PeerV4(a) => Config(1, a, ZERO6, port)
    case PeerV6(a) => Config(1, ZERO4, a, port)
  }

  predicate IsFrom(p: Packet, peer: Peer) {
    match peer
    case PeerV4(a) => p.l3.V4? && p.l3.src == a
    case PeerV6(a) => p.l3.V6? && p.l3.src == a
  }

  /** A packet of the other family from the unspecified address. */
  predicate FromUnset(p: Packet, peer: Peer) {
    match peer
    case PeerV4(_) => p.l3.V6? && p.l3.src == ZERO6
    case PeerV6(_) => p.l3.V4? && p.l3.src == ZERO4
  }

  /** What an armed injector cuts off: its peer, and one family of strays. */
  lemma ArmedDropsExactly(peer: Peer, port: u16, p: Packet)
    requires Valid(p)
    ensures Drops(ConfigFor(peer, port), Encode(p)) <==>
            |p.tags| <= 2 && (IsFrom(p, peer) || FromUnset(p, peer)) && FromPort(p.l3, port)
  {
    EncodedDropsIffMatch(ConfigFor(peer, port), p);
  }

  /** So "drops exactly the peer's packets" holds of a packet if and only if
      it is not an unset-address packet of the other family that would
      otherwise pass the tag and port tests. */
  lemma PeerOnlyIff(peer: Peer, port: u16, p: Packet)
    requires Valid(p)
    ensures (Drops(ConfigFor(peer, port), Encode(p)) <==>
             |p.tags| <= 2 && IsFrom(p, peer) && FromPort(p.l3, port))
            <==> !(FromUnset(p, peer) && |p.tags| <= 2 && FromPort(p.l3, port))
  {
    ArmedDropsExactly(peer, port, p);
  }

  /** The exception is real: a v6 injector for any port drops IPv4 from 0.0.0.0. */
  lemma UnsetAddressIsDropped(a: bytes)
    requires |a| == 16
    ensures exists p: Packet :: Valid(p) && !IsFrom(p, PeerV6(a)) && Drops(ConfigFor(PeerV6(a), 0), Encode(p))
  {
    var l3 := V4(4, [0, 0, 0, 0, 0], 0, 0, 64, [0, 0], ZERO4, ZERO4, [], OtherL4(1, []));
    var p := Packet([0, 0, 0, 0, 0, 0, 0, 0, 0, 0, 0, 0], [], l3);
    ArmedDropsExactly(PeerV6(a), 0, p);
  }

  // ---------------------------------------------------------------------
  // The encoding, byte by byte
  // ---------------------------------------------------------------------

  /** The bytes on the wire of what the program tells packets by. */
  lemma WireConstants(more: bytes)
    ensures Be16(ETH_P_IP) == [0x08, 0x00] && Be16(ETH_P_IPV6) == [0x86, 0xDD]
    ensures forall tpid: u16 :: IsTag(tpid) <==> Be16(tpid) == [0x81, 0x00] || Be16(tpid) == [0x88, 0xA8]
    ensures EncodeL4(Udp(53, 40000, more)) == [0, 53, 0x9C, 0x40] + more
    ensures EncodeL4(Tcp(0x1F90, 443, more)) == [0x1F, 0x90, 0x01, 0xBB] + more
    ensures forall f: Fragment :: NextHeader(Fragmented(f, Tcp(0, 0, more))) == 44
  {
    forall tpid: u16 ensures IsTag(tpid) <==> Be16(tpid) == [0x81, 0x00] || Be16(tpid) == [0x88, 0xA8] {
      assert U16(Be16(tpid), 0) == tpid;
    }
  }
}
