/** The XDP packet filter: two rate gates, a permit lookup and packet statistics
    (main.rs:80-202 and 315-337). One CPU; permits belong to userspace. */
module XdpFilter {
  import opened Common
  import opened Packet
  import opened FixedWindow
  import Fnv

  const MAX_UDP_PER_SEC := 200
  const MAX_SYN_PER_SEC := 50
  const BUCKETS := 0x1_0000

  datatype SessionPermit = SessionPermit(
    sourceEntityPrefix: seq<u8>, destEntityPrefix: seq<u8>,
    intent: u16, trustScore: u8, verdict: u8, expiresAt: u64)

  datatype Action = Aborted | Drop | Pass

  datatype Gates = Gates(udp: seq<RateEntry>, syn: seq<RateEntry>)

  const ZEROED_GATES := Gates(seq(BUCKETS, _ => ZEROED), seq(BUCKETS, _ => ZEROED))

  /** The filter's answer for one packet and the statistic 1..5 it is counted under, if any. */
  datatype Decision = Decision(action: Action, stat: Option<u32>)

  // ---- Specification: classify the packet, then decide ----

  predicate UdpLets(g: Gates, bucket: u16, now: u64) { LetsIn(g.udp, bucket, now, MAX_UDP_PER_SEC) }

  function DecidePermit(permits: map<u64, SessionPermit>, rest: UdpPart): Decision
    requires rest.Aitp?
  {
    if rest.version != AITP_VERSION then Decision(Drop, Some(2))
    else if rest.sessionId in permits then
      if permits[rest.sessionId].verdict == 0 then Decision(Drop, Some(2)) else Decision(Pass, Some(1))
    else if rest.isSyn then Decision(Pass, Some(3))
    else Decision(Drop, Some(2))
  }

  /** What happens to a packet that the UDP gate let through. */
  function DecideRest(syn: seq<RateEntry>, permits: map<u64, SessionPermit>, bucket: u16, rest: UdpPart, now: u64)
      : Decision {
    match rest
    case OtherPort => Decision(Pass, Some(3))
    case Aitp(_, isSyn, _) =>
      if isSyn && !LetsIn(syn, bucket, now, MAX_SYN_PER_SEC) then Decision(Drop, Some(5))
      else DecidePermit(permits, rest)
    case ShortUdp | ShortAitp => Decision(Aborted, None)
  }

  function DecideUdp(g: Gates, permits: map<u64, SessionPermit>, bucket: u16, rest: UdpPart, now: u64): Decision {
    if !UdpLets(g, bucket, now) then Decision(Drop, Some(4)) else DecideRest(g.syn, permits, bucket, rest, now)
  }

  /** The decision on a packet of class c whose source hashes to the given bucket. */
  function Decide(g: Gates, permits: map<u64, SessionPermit>, c: PacketClass, bucket: u16, now: u64): Decision {
    match c
    case Udp(_, rest) => DecideUdp(g, permits, bucket, rest, now)
    case NotIp | Ipv6 | NotUdp => Decision(Pass, Some(3))
    case ShortEthernet | ShortIp => Decision(Aborted, None)
  }

  /** Statistic 0 counts the IPv4 and IPv6 packets. */
  predicate CountsAsIp(c: PacketClass) { !c.ShortEthernet? && !c.NotIp? }

  /** The SYN gate is consulted only for SYNs that the UDP gate let through. */
  predicate ReachesSynGate(g: Gates, c: PacketClass, bucket: u16, now: u64) {
    c.Udp? && c.rest.Aitp? && c.rest.isSyn && UdpLets(g, bucket, now)
  }

  function Advance(g: Gates, c: PacketClass, bucket: u16, now: u64): Gates {
    if !c.Udp? then g else
      Gates(CountIn(g.udp, bucket, now),
            if ReachesSynGate(g, c, bucket, now) then CountIn(g.syn, bucket, now) else g.syn)
  }

  // ---- What the decision means, condition by condition ----

  /** An AITP message that the version and the permits let through: under a permit that is not a
      denial, or as the opening of a session that has no permit yet. */
  predicate Authorized(permits: map<u64, SessionPermit>, version: u8, isSyn: bool, sessionId: u64) {
    version == 4 && if sessionId in permits then permits[sessionId].verdict != 0 else isSyn
  }

  /** The conditions under which a packet passes. */
  predicate Admitted(g: Gates, permits: map<u64, SessionPermit>, c: PacketClass, bucket: u16, now: u64) {
    || c.NotIp? || c.Ipv6? || c.NotUdp?
    || (c.Udp? && LetsIn(g.udp, bucket, now, 200) &&
        match c.rest
        case OtherPort => true
        case Aitp(version, isSyn, sessionId) =>
          (isSyn ==> LetsIn(g.syn, bucket, now, 50)) && Authorized(permits, version, isSyn, sessionId)
        case _ => false)
  }

  /** A packet too short for a header that has to be read: the UDP and AITP headers are read only
      behind the UDP gate. */
  predicate CutShort(g: Gates, c: PacketClass, bucket: u16, now: u64) {
    || c.ShortEthernet? || c.ShortIp?
    || (c.Udp? && LetsIn(g.udp, bucket, now, 200) && (c.rest.ShortUdp? || c.rest.ShortAitp?))
  }

  /** What is decided on a packet and how it is counted, with no appeal to the steps of the decision. */
  lemma DecisionMeaning(g: Gates, permits: map<u64, SessionPermit>, c: PacketClass, bucket: u16, now: u64)
    ensures var d := Decide(g, permits, c, bucket, now);
      var udpLets := c.Udp? && LetsIn(g.udp, bucket, now, 200);
      var known := c.Udp? && c.rest.Aitp? && c.rest.sessionId in permits;
      && (d.action == Pass <==> Admitted(g, permits, c, bucket, now))
      && (d.action == Aborted <==> CutShort(g, c, bucket, now))
      && (d.stat == None <==> d.action == Aborted)
      && (d.stat == Some(4) <==> c.Udp? && !udpLets)
      && (d.stat == Some(5) <==> udpLets && c.rest.Aitp? && c.rest.isSyn && !LetsIn(g.syn, bucket, now, 50))
      && (d.stat == Some(1) <==> d.action == Pass && known)
      && (d.stat == Some(3) <==> d.action == Pass && !known)
      && (d.stat == Some(2) <==> d.action == Drop && d.stat != Some(4) && d.stat != Some(5))
  {
  }

  /** The bucket a packet is accounted to: the FNV hash of its IPv4 source, for UDP packets. */
  function Bucket(c: PacketClass): u16 { if c.Udp? then Fnv.FnvHash(c.src) else 0 }

  /** A counter moves only when its key is present, and wraps at 64 bits. */
  function Bump(stats: map<u32, u64>, key: u32): map<u32, u64> {
    if key in stats then stats[key := (stats[key] + 1) % (U64_MAX + 1)] else stats
  }

  function BumpStat(stats: map<u32, u64>, stat: Option<u32>): map<u32, u64> {
    if stat.Some? then Bump(stats, stat.value) else stats
  }

  function CountPacket(stats: map<u32, u64>, c: PacketClass, d: Decision): map<u32, u64> {
    BumpStat(if CountsAsIp(c) then Bump(stats, 0) else stats, d.stat)
  }

  // ---- The program ----

  class Program {
    const udpRate: RateTable
    const synRate: RateTable
    var permitMap: map<u64, SessionPermit>
    var statsMap: map<u32, u64>

    ghost predicate Valid()
      reads this, udpRate, synRate
    {
      udpRate.entries != synRate.entries
    }

    ghost function State(): Gates
      reads this, udpRate, synRate, udpRate.entries, synRate.entries
    {
      Gates(udpRate.entries[..], synRate.entries[..])
    }

    constructor (stats: map<u32, u64>)
      ensures Valid() && fresh(udpRate.entries) && fresh(synRate.entries)
      ensures State() == ZEROED_GATES && permitMap == map[] && statsMap == stats
    {
      udpRate := new RateTable(BUCKETS);
      synRate := new RateTable(BUCKETS);
      permitMap := map[];
      statsMap := stats;
    }

    method IncrementStat(key: u32)
      modifies this`statsMap
      ensures statsMap == Bump(old(statsMap), key)
    {
      if key in statsMap {
        statsMap := statsMap[key := (statsMap[key] + 1) % (U64_MAX + 1)];
      }
    }

    /** The UDP rate gate and everything behind it. Err is a failed bounds check. */
    method FilterUdp(packet: seq<u8>, srcKey: u16, now: u64) returns (r: Result<Action, ()>)
      requires Valid() && |packet| >= ETH_HDR_LEN + IPV4_HDR_LEN
      modifies this`statsMap, udpRate.entries, synRate.entries
      ensures Valid() && permitMap == old(permitMap)
      ensures forall src :: State() == Advance(old(State()), Udp(src, ClassifyUdp(packet)), srcKey, now)
      ensures var d := DecideUdp(old(State()), permitMap, srcKey, ClassifyUdp(packet), now);
        && r == (if d.action == Aborted then Err(()) else Ok(d.action))
        && statsMap == BumpStat(old(statsMap), d.stat)
    {
      var udpRateDrop := udpRate.CheckRate(srcKey, now, MAX_UDP_PER_SEC);
      if udpRateDrop {
        IncrementStat(4);
        return Ok(Drop);
      }
      r := FilterAitp(packet, srcKey, now);
    }

    /** The header checks and the SYN gate of a packet that the UDP gate let through. */
    method FilterAitp(packet: seq<u8>, srcKey: u16, now: u64) returns (r: Result<Action, ()>)
      requires Valid() && |packet| >= ETH_HDR_LEN + IPV4_HDR_LEN
      modifies this`statsMap, synRate.entries
      ensures permitMap == old(permitMap)
      ensures synRate.entries[..] == var rest := ClassifyUdp(packet);
        if rest.Aitp? && rest.isSyn then CountIn(old(synRate.entries[..]), srcKey, now) else old(synRate.entries[..])
      ensures var d := DecideRest(old(synRate.entries[..]), permitMap, srcKey, ClassifyUdp(packet), now);
        && r == (if d.action == Aborted then Err(()) else Ok(d.action))
        && statsMap == BumpStat(old(statsMap), d.stat)
    {
      var ipHdrLen := HeaderLength(packet[ETH_HDR_LEN]);
      if !PtrAt(packet, ETH_HDR_LEN + ipHdrLen, UDP_HDR_LEN) { return Err(()); }
      var dstPort := BigEndian16(packet, ETH_HDR_LEN + ipHdrLen + 2);
      if dstPort != AITP_PORT {
        IncrementStat(3);
        return Ok(Pass);
      }

      var payload := ETH_HDR_LEN + ipHdrLen + UDP_HDR_LEN;
      if !PtrAt(packet, payload, AITP_MIN_HDR_LEN) { return Err(()); }
      var version := packet[payload];
      var flags := packet[payload + 1];
      var sessionId := BigEndian64(packet, payload + AITP_SESSION_OFFSET);

      var isSyn := flags % 2 != 0 && flags / 2 % 2 == 0;
      if isSyn {
        var synRateDrop := synRate.CheckRate(srcKey, now, MAX_SYN_PER_SEC);
        if synRateDrop {
          IncrementStat(5);
          return Ok(Drop);
        }
      }
      var action := CheckPermit(version, isSyn, sessionId);
      return Ok(action);
    }

    /** The version check and the permit lookup that end the program. */
    method CheckPermit(version: u8, isSyn: bool, sessionId: u64) returns (action: Action)
      modifies this`statsMap
      ensures var d := DecidePermit(permitMap, Aitp(version, isSyn, sessionId));
        action == d.action && statsMap == BumpStat(old(statsMap), d.stat)
      ensures action == (if Authorized(permitMap, version, isSyn, sessionId) then Pass else Drop)
    {
      if version != AITP_VERSION {
        IncrementStat(2);
        return Drop;
      }
      if sessionId !in permitMap {
        if isSyn {
          IncrementStat(3);
          return Pass;
        }
        IncrementStat(2);
        return Drop;
      }
      if permitMap[sessionId].verdict == 0 {
        IncrementStat(2);
        return Drop;
      }
      IncrementStat(1);
      return Pass;
    }

    method TryKelanXdp(packet: seq<u8>, now: u64) returns (r: Result<Action, ()>)
      requires Valid()
      modifies this`statsMap, udpRate.entries, synRate.entries
      ensures Valid() && permitMap == old(permitMap)
      ensures State() == Advance(old(State()), Classify(packet), Bucket(Classify(packet)), now)
      ensures var d := Decide(old(State()), permitMap, Classify(packet), Bucket(Classify(packet)), now);
        && r == (if d.action == Aborted then Err(()) else Ok(d.action))
        && statsMap == CountPacket(old(statsMap), Classify(packet), d)
    {
      if !PtrAt(packet, 0, ETH_HDR_LEN) { return Err(()); }
      var ethProto := BigEndian16(packet, 12);
      if ethProto != ETH_P_IP && ethProto != ETH_P_IPV6 {
        IncrementStat(3);
        return Ok(Pass);
      }
      IncrementStat(0);
      if ethProto == ETH_P_IPV6 {
        IncrementStat(3);
        return Ok(Pass);
      }
      if !PtrAt(packet, ETH_HDR_LEN, IPV4_HDR_LEN) { return Err(()); }
      var proto := packet[ETH_HDR_LEN + 9];
      var srcAddr := BigEndian32(packet, ETH_HDR_LEN + 12);
      if proto != IPPROTO_UDP {
        IncrementStat(3);
        return Ok(Pass);
      }
      var srcKey := Fnv.ComputeKey(srcAddr);
      r := FilterUdp(packet, srcKey, now);
    }

    method KelanXdp(packet: seq<u8>, now: u64) returns (action: Action)
      requires Valid()
      modifies this`statsMap, udpRate.entries, synRate.entries
      ensures Valid() && permitMap == old(permitMap)
      ensures State() == Advance(old(State()), Classify(packet), Bucket(Classify(packet)), now)
      ensures var d := Decide(old(State()), permitMap, Classify(packet), Bucket(Classify(packet)), now);
        action == d.action && statsMap == CountPacket(old(statsMap), Classify(packet), d)
      ensures var c := Classify(packet);
        && (action == Pass <==> Admitted(old(State()), permitMap, c, Bucket(c), now))
        && (action == Aborted <==> CutShort(old(State()), c, Bucket(c), now))
    {
      DecisionMeaning(State(), permitMap, Classify(packet), Bucket(Classify(packet)), now);
      var r := TryKelanXdp(packet, now);
      action := if r.Ok? then r.value else Aborted;
    }
  }

  /** Whether `size` bytes can be read at `offset`. */
  predicate PtrAt(packet: seq<u8>, offset: nat, size: nat) { offset + size <= |packet| }
}
