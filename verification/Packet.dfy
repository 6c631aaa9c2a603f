/** Ethernet, IPv4, UDP and AITP headers read from raw packet bytes (main.rs:266-313). */
module Packet {
  import opened Common

  const ETH_P_IP := 0x0800
  const ETH_P_IPV6 := 0x86DD
  const IPPROTO_UDP := 17
  const AITP_PORT := 9999
  const AITP_VERSION := 4
  const ETH_HDR_LEN := 14
  const IPV4_HDR_LEN := 20
  const UDP_HDR_LEN := 8

  /** The C layout of the minimal AITP header: the 64-bit session id is aligned to offset 8. */
  const AITP_MIN_HDR_LEN := 16
  const AITP_SESSION_OFFSET := 8

  function Pow256(n: nat): nat { if n == 0 then 1 else 256 * Pow256(n - 1) }

  /** The number whose big-endian representation is the given bytes. */
  function BigEndian(bytes: seq<u8>): (n: nat)
    ensures n < Pow256(|bytes|)
  {
    if bytes == [] then 0 else 256 * BigEndian(bytes[..|bytes| - 1]) + bytes[|bytes| - 1]
  }

  /** Big-endian reading tells apart any two byte strings of the same length. */
  lemma {:induction false} BigEndianInjective(a: seq<u8>, b: seq<u8>)
    requires |a| == |b| && BigEndian(a) == BigEndian(b)
    ensures a == b
  {
    if a != [] {
      var n := |a| - 1;
      assert a[n] == BigEndian(a) % 256 && b[n] == BigEndian(b) % 256;
      BigEndianInjective(a[..n], b[..n]);
      assert a == a[..n] + [a[n]] && b == b[..n] + [b[n]];
    }
  }

  function BigEndian16(packet: seq<u8>, at: nat): u16
    requires at + 2 <= |packet|
  {
    (packet[at] as nat) * 256 + packet[at + 1]
  }

  function BigEndian32(packet: seq<u8>, at: nat): u32
    requires at + 4 <= |packet|
  {
    BigEndian16(packet, at) * 0x1_0000 + BigEndian16(packet, at + 2)
  }

  function BigEndian64(packet: seq<u8>, at: nat): u64
    requires at + 8 <= |packet|
  {
    BigEndian32(packet, at) * 0x1_0000_0000 + BigEndian32(packet, at + 4)
  }

  lemma BigEndian64IsBigEndian(packet: seq<u8>, at: nat)
    requires at + 8 <= |packet|
    ensures BigEndian64(packet, at) == BigEndian(packet[at..at + 8])
  {
    var s := packet[at..at + 8];
    assert s[..7][..6] == s[..6] && s[..6][..5] == s[..5] && s[..5][..4] == s[..4] && s[..4][..3] == s[..3]
        && s[..3][..2] == s[..2] && s[..2][..1] == s[..1] && s[..1][..0] == [];
    assert BigEndian(s[..1]) == s[0];
    assert BigEndian(s[..2]) == 256 * (s[0] as nat) + s[1];
    assert BigEndian(s[..4]) == BigEndian32(packet, at) by {
      assert BigEndian(s[..3]) == 256 * BigEndian(s[..2]) + s[2];
    }
    assert BigEndian(s[..6]) == 256 * (256 * BigEndian(s[..4]) + s[4]) + s[5] by {
      assert BigEndian(s[..5]) == 256 * BigEndian(s[..4]) + s[4];
    }
    assert BigEndian(s) == 256 * (256 * BigEndian(s[..6]) + s[6]) + s[7] by {
      assert BigEndian(s[..7]) == 256 * BigEndian(s[..6]) + s[6];
    }
  }

  predicate IsSyn(flags: u8) { flags % 2 == 1 && flags / 2 % 2 == 0 }

  /** The header length in bytes encoded in the low nibble of the first IPv4 byte. */
  function HeaderLength(ihlVersion: u8): nat { ihlVersion % 16 * 4 }

  datatype UdpPart =
    | ShortUdp                                              // no room for the UDP header
    | OtherPort
    | ShortAitp                                             // no room for the AITP header
    | Aitp(version: u8, isSyn: bool, sessionId: u64)

  datatype PacketClass =
    | ShortEthernet
    | NotIp
    | Ipv6
    | ShortIp
    | NotUdp
    | Udp(src: u32, rest: UdpPart)

  function ClassifyUdp(packet: seq<u8>): UdpPart
    requires |packet| >= ETH_HDR_LEN + IPV4_HDR_LEN
  {
    var udp := ETH_HDR_LEN + HeaderLength(packet[ETH_HDR_LEN]);
    var aitp := udp + UDP_HDR_LEN;
    if |packet| < udp + UDP_HDR_LEN then ShortUdp
    else if BigEndian16(packet, udp + 2) != AITP_PORT then OtherPort
    else if |packet| < aitp + AITP_MIN_HDR_LEN then ShortAitp
    else Aitp(packet[aitp], IsSyn(packet[aitp + 1]), BigEndian64(packet, aitp + AITP_SESSION_OFFSET))
  }

  /** What a packet is, read off its bytes without consulting any filter state. */
  function Classify(packet: seq<u8>): PacketClass {
    if |packet| < ETH_HDR_LEN then ShortEthernet
    else
      var etherType := BigEndian16(packet, 12);
      if etherType == ETH_P_IPV6 then Ipv6
      else if etherType != ETH_P_IP then NotIp
      else if |packet| < ETH_HDR_LEN + IPV4_HDR_LEN then ShortIp
      else if packet[ETH_HDR_LEN + 9] != IPPROTO_UDP then NotUdp
      else Udp(BigEndian32(packet, ETH_HDR_LEN + 12), ClassifyUdp(packet))
  }

  // ---- Frames written from field values ----

  function Put16(v: u16): seq<u8> { [v / 256, v % 256] }

  function Put32(v: u32): seq<u8> { Put16(v / 0x1_0000) + Put16(v % 0x1_0000) }

  function Put64(v: u64): seq<u8> { Put32(v / 0x1_0000_0000) + Put32(v % 0x1_0000_0000) }

  /** The fields of an Ethernet frame that carries IPv4 and UDP, in the order of their bytes. */
  datatype Frame = Frame(
    macs: seq<u8>, etherType: u16,
    ipVersion: nat, service: seq<u8>, protocol: u8, ipChecksum: u16, src: u32, dst: u32, options: seq<u8>,
    srcPort: u16, dstPort: u16, lengthAndChecksum: seq<u8>, payload: seq<u8>)
  {
    predicate WellFormed() {
      && |macs| == 12 && ipVersion < 16 && |service| == 8 && |lengthAndChecksum| == 4
      && |options| % 4 == 0 && |options| <= 40
    }

    function Ethernet(): seq<u8> { macs + Put16(etherType) }

    function Ipv4(): seq<u8>
      requires WellFormed()
    {
      [ipVersion * 16 + 5 + |options| / 4] + service + [protocol] + Put16(ipChecksum) + Put32(src) + Put32(dst)
    }

    function Udp(): seq<u8> { Put16(srcPort) + Put16(dstPort) + lengthAndChecksum }

    function Bytes(): (b: seq<u8>)
      requires WellFormed()
      ensures |b| == 42 + |options| + |payload|
    {
      Ethernet() + Ipv4() + options + Udp() + payload
    }
  }

  lemma Get16(v: u16, b: seq<u8>, at: nat)
    requires at + 2 <= |b| && b[at..at + 2] == Put16(v)
    ensures BigEndian16(b, at) == v
  {
    assert b[at] == b[at..at + 2][0] && b[at + 1] == b[at..at + 2][1];
  }

  lemma Get32(v: u32, b: seq<u8>, at: nat)
    requires at + 4 <= |b| && b[at..at + 4] == Put32(v)
    ensures BigEndian32(b, at) == v
  {
    assert b[at..at + 4][..2] == b[at..at + 2] && b[at..at + 4][2..] == b[at + 2..at + 4];
    Get16(v / 0x1_0000, b, at);
    Get16(v % 0x1_0000, b, at + 2);
  }

  lemma Get64(v: u64, b: seq<u8>, at: nat)
    requires at + 8 <= |b| && b[at..at + 8] == Put64(v)
    ensures BigEndian64(b, at) == v
  {
    assert b[at..at + 8][..4] == b[at..at + 4] && b[at..at + 8][4..] == b[at + 4..at + 8];
    Get32(v / 0x1_0000_0000, b, at);
    Get32(v % 0x1_0000_0000, b, at + 4);
  }

  /** The fields sit where the headers say. */
  lemma FramePlaces(f: Frame)
    requires f.WellFormed()
    ensures var b, udp := f.Bytes(), 34 + |f.options|;
      && |b| == udp + 8 + |f.payload|
      && b[12..14] == Put16(f.etherType) && HeaderLength(b[14]) == 20 + |f.options|
      && b[23] == f.protocol && b[26..30] == Put32(f.src)
      && b[udp + 2..udp + 4] == Put16(f.dstPort) && b[udp + 8..] == f.payload
  {
    var e, ip, u := f.Ethernet(), f.Ipv4(), f.Udp();
    var b, udp := f.Bytes(), 34 + |f.options|;
    assert |e| == 14 && |ip| == 20 && |u| == 8;
    assert b[..14] == e && b[14..34] == ip && b[udp..udp + 8] == u;
    assert e[12..] == Put16(f.etherType);
    assert ip[9] == f.protocol && ip[12..16] == Put32(f.src);
    assert u[2..4] == Put16(f.dstPort);
    assert b[12..14] == b[..14][12..] && b[26..30] == b[14..34][12..16] && b[udp + 2..udp + 4] == b[udp..udp + 8][2..4];
    assert b[14] == b[14..34][0] && b[23] == b[14..34][9];
    assert ip[0] % 16 == 5 + |f.options| / 4;
  }

  /** What a frame cut off after n bytes is, by its fields. */
  function Meaning(f: Frame, n: nat): PacketClass
    requires f.WellFormed() && n <= |f.Bytes()|
  {
    var headers := 14 + 20 + |f.options| + 8;
    if n < 14 then ShortEthernet
    else if f.etherType == 0x86DD then Ipv6
    else if f.etherType != 0x0800 then NotIp
    else if n < 34 then ShortIp
    else if f.protocol != 17 then NotUdp
    else PacketClass.Udp(f.src,
                         if n < headers then ShortUdp
                         else if f.dstPort != 9999 then OtherPort
                         else if n < headers + 16 then ShortAitp
                         else AitpMeaning(f.payload[..16]))
  }

  /** The header of an AITP message: bit 0 of the flags opens a session unless bit 1 acknowledges. */
  function AitpMeaning(header: seq<u8>): UdpPart
    requires |header| == 16
  {
    assert Pow256(8) == U64_MAX + 1 by { Pow256Of8(); }
    var flags := header[1];
    Aitp(header[0], flags % 4 == 1, BigEndian(header[8..]))
  }

  lemma Pow256Of8()
    ensures Pow256(8) == U64_MAX + 1
  {
    assert Pow256(2) == 0x1_0000;
    assert Pow256(4) == 256 * (256 * Pow256(2));
    assert Pow256(6) == 256 * (256 * Pow256(4));
    assert Pow256(8) == 256 * (256 * Pow256(6));
  }

  lemma PrefixReads(f: Frame, n: nat)
    requires f.WellFormed() && 14 <= n <= |f.Bytes()|
    ensures var b, udp := f.Bytes()[..n], 34 + |f.options|;
      && BigEndian16(b, 12) == f.etherType
      && (n >= 34 ==> HeaderLength(b[14]) == 20 + |f.options| && b[23] == f.protocol && BigEndian32(b, 26) == f.src)
      && (n >= udp + 8 ==> BigEndian16(b, udp + 2) == f.dstPort && b[udp + 8..] == f.payload[..n - udp - 8])
  {
    var all, b, udp := f.Bytes(), f.Bytes()[..n], 34 + |f.options|;
    FramePlaces(f);
    assert b[12..14] == all[12..14];
    Get16(f.etherType, b, 12);
    if n >= 34 {
      assert b[26..30] == all[26..30];
      Get32(f.src, b, 26);
    }
    if n >= udp + 8 {
      assert b[udp + 2..udp + 4] == all[udp + 2..udp + 4];
      Get16(f.dstPort, b, udp + 2);
      assert b[udp + 8..] == all[udp + 8..][..n - udp - 8];
    }
  }

  lemma AitpAt(b: seq<u8>, at: nat)
    requires at + 16 <= |b|
    ensures Aitp(b[at], IsSyn(b[at + 1]), BigEndian64(b, at + 8)) == AitpMeaning(b[at..at + 16])
  {
    assert b[at + 8..at + 16] == b[at..at + 16][8..];
    BigEndian64IsBigEndian(b, at + 8);
  }

  lemma ClassifyUdpFrame(f: Frame, n: nat)
    requires f.WellFormed() && 34 <= n <= |f.Bytes()|
    ensures ClassifyUdp(f.Bytes()[..n]) ==
      if n < 42 + |f.options| then ShortUdp
      else if f.dstPort != 9999 then OtherPort
      else if n < 58 + |f.options| then ShortAitp
      else AitpMeaning(f.payload[..16])
  {
    var b, aitp := f.Bytes()[..n], 42 + |f.options|;
    PrefixReads(f, n);
    if n >= aitp + 16 {
      assert b[aitp..aitp + 16] == b[aitp..][..16] == f.payload[..16];
      AitpAt(b, aitp);
    }
  }

  /** Parsing is the inverse of writing: every frame, of any header length, cut off anywhere, is
      recognised for what its fields say. */
  lemma ClassifyFrame(f: Frame, n: nat)
    requires f.WellFormed() && n <= |f.Bytes()|
    ensures Classify(f.Bytes()[..n]) == Meaning(f, n)
  {
    if n >= 14 { PrefixReads(f, n); }
    if n >= 34 { ClassifyUdpFrame(f, n); }
  }

  /** An AITP message written from its fields is read back from any frame that carries it. */
  lemma AitpHeaderReadsBack(version: u8, syn: bool, ack: bool, otherFlags: nat, intent: u16, padding: seq<u8>, sid: u64)
    requires otherFlags < 64 && |padding| == 4
    ensures var flags: u8 := otherFlags * 4 + (if ack then 2 else 0) + (if syn then 1 else 0);
      AitpMeaning([version, flags] + Put16(intent) + padding + Put64(sid)) == Aitp(version, syn && !ack, sid)
  {
    var flags: u8 := otherFlags * 4 + (if ack then 2 else 0) + (if syn then 1 else 0);
    var header := [version, flags] + Put16(intent) + padding + Put64(sid);
    assert header[8..] == Put64(sid) && header[8..16] == header[8..];
    Get64(sid, header, 8);
    BigEndian64IsBigEndian(header, 8);
    assert header[0] == version && header[1] == flags;
  }
}
