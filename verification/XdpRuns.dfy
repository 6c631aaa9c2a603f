/** What the XDP filter guarantees over whole runs: packet accounting, independence of the
    hash buckets, and the rates that get through its two gates. */
module XdpRuns {
  import opened Common
  import opened Packet
  import opened FixedWindow
  import opened XdpFilter
  import Fnv

  /** One packet: its class, its source bucket, the kernel time it arrives at, and the permits
      userspace has installed by then. */
  datatype Event = Event(kind: PacketClass, bucket: u16, now: u64, permits: map<u64, SessionPermit>)

  /** A packet off the wire, the kernel time it arrives at, and the permits installed by then. */
  datatype RawPacket = RawPacket(bytes: seq<u8>, now: u64, permits: map<u64, SessionPermit>)

  /** The event of a raw packet. The results below hold of any bucketing of the sources. */
  function Arrival(raw: RawPacket): Event {
    Event(Classify(raw.bytes), Bucket(Classify(raw.bytes)), raw.now, raw.permits)
  }

  function Arriving(raws: seq<RawPacket>): seq<Event> {
    if raws == [] then [] else [Arrival(raws[0])] + Arriving(raws[1..])
  }

  function Decided(g: Gates, ev: Event): Decision { Decide(g, ev.permits, ev.kind, ev.bucket, ev.now) }

  function Next(g: Gates, ev: Event): Gates { Advance(g, ev.kind, ev.bucket, ev.now) }

  // ---- Packet accounting ----

  function RunStats(g: Gates, stats: map<u32, u64>, evs: seq<Event>): map<u32, u64>
    decreases evs
  {
    if evs == [] then stats
    else RunStats(Next(g, evs[0]), CountPacket(stats, evs[0].kind, Decided(g, evs[0])), evs[1..])
  }

  /** How many packets of the run are counted under a statistic. */
  function Hits(g: Gates, evs: seq<Event>, key: u32): nat
    decreases evs
  {
    if evs == [] then 0
    else Hit(g, evs[0], key) + Hits(Next(g, evs[0]), evs[1..], key)
  }

  function RunGates(g: Gates, evs: seq<Event>): Gates
    decreases evs
  {
    if evs == [] then g else RunGates(Next(g, evs[0]), evs[1..])
  }

  function ActionCount(g: Gates, evs: seq<Event>, action: Action): nat
    decreases evs
  {
    if evs == [] then 0
    else (if Decided(g, evs[0]).action == action then 1 else 0) + ActionCount(Next(g, evs[0]), evs[1..], action)
  }

  /** What one packet adds to the hits of a statistic. */
  function Hit(g: Gates, ev: Event, key: u32): nat {
    (if key == 0 && CountsAsIp(ev.kind) then 1 else 0) + (if Decided(g, ev).stat == Some(key) then 1 else 0)
  }

  lemma OneHit(g: Gates, stats: map<u32, u64>, ev: Event, key: u32)
    ensures var s := CountPacket(stats, ev.kind, Decided(g, ev));
      && (key in s <==> key in stats)
      && (key in s ==> s[key] == (stats[key] + Hit(g, ev, key)) % (U64_MAX + 1))
  {
  }

  /** The map holds the hits, modulo 2^64, under the keys it started with and no others. */
  lemma {:induction false} StatsAreHits(g: Gates, stats: map<u32, u64>, evs: seq<Event>, key: u32)
    ensures key in RunStats(g, stats, evs) <==> key in stats
    ensures key in stats ==> RunStats(g, stats, evs)[key] == (stats[key] + Hits(g, evs, key)) % (U64_MAX + 1)
    decreases evs
  {
    if evs != [] {
      var ev := evs[0];
      OneHit(g, stats, ev, key);
      var s := CountPacket(stats, ev.kind, Decided(g, ev));
      StatsAreHits(Next(g, ev), s, evs[1..], key);
      if key in stats {
        ModAbsorbs(stats[key] + Hit(g, ev, key), Hits(Next(g, ev), evs[1..], key));
      }
    }
  }

  /** Every packet is aborted by a bounds check or counted under exactly one of 1..5; 1 and 3
      are the passes, 2, 4 and 5 the drops. */
  lemma {:induction false} EveryPacketCountedOnce(g: Gates, evs: seq<Event>)
    ensures ActionCount(g, evs, Pass) == Hits(g, evs, 1) + Hits(g, evs, 3)
    ensures ActionCount(g, evs, Drop) == Hits(g, evs, 2) + Hits(g, evs, 4) + Hits(g, evs, 5)
    ensures ActionCount(g, evs, Pass) + ActionCount(g, evs, Drop) + ActionCount(g, evs, Aborted) == |evs|
    decreases evs
  {
    if evs != [] { EveryPacketCountedOnce(Next(g, evs[0]), evs[1..]); }
  }

  /** The IPv4 and IPv6 packets of a run, however short. */
  function IpPackets(evs: seq<Event>): nat {
    if evs == [] then 0
    else (if evs[0].kind.ShortEthernet? || evs[0].kind.NotIp? then 0 else 1) + IpPackets(evs[1..])
  }

  /** Statistic 0 counts exactly those. */
  lemma {:induction false} StatZeroCountsIp(g: Gates, evs: seq<Event>)
    ensures Hits(g, evs, 0) == IpPackets(evs)
    decreases evs
  {
    if evs != [] {
      DecisionMeaning(g, evs[0].permits, evs[0].kind, evs[0].bucket, evs[0].now);
      StatZeroCountsIp(Next(g, evs[0]), evs[1..]);
    }
  }

  lemma {:induction false} HitsAtMostLength(g: Gates, evs: seq<Event>, key: u32)
    requires key > 0
    ensures Hits(g, evs, key) <= |evs|
    decreases evs
  {
    if evs != [] { HitsAtMostLength(Next(g, evs[0]), evs[1..], key); }
  }

  lemma HitsBelow(g: Gates, stats: map<u32, u64>, evs: seq<Event>, key: u32)
    requires 1 <= key <= 5 && key in stats && stats[key] == 0 && |evs| <= U64_MAX
    ensures key in RunStats(g, stats, evs) && RunStats(g, stats, evs)[key] == Hits(g, evs, key)
  {
    HitsAtMostLength(g, evs, key);
    StatsAreHits(g, stats, evs, key);
  }

  /** The same balance read from the statistics map, when its counters start at zero. */
  lemma StatsBalance(g: Gates, stats: map<u32, u64>, evs: seq<Event>)
    requires {1, 2, 3, 4, 5} <= stats.Keys
    requires stats[1] == stats[2] == stats[3] == stats[4] == stats[5] == 0
    requires |evs| <= U64_MAX
    ensures var s := RunStats(g, stats, evs);
      && {1, 2, 3, 4, 5} <= s.Keys
      && s[1] as nat + s[3] == ActionCount(g, evs, Pass)
      && s[2] as nat + s[4] + s[5] == ActionCount(g, evs, Drop)
      && s[1] as nat + s[2] + s[3] + s[4] + s[5] + ActionCount(g, evs, Aborted) == |evs|
  {
    HitsBelow(g, stats, evs, 1);
    HitsBelow(g, stats, evs, 2);
    HitsBelow(g, stats, evs, 3);
    HitsBelow(g, stats, evs, 4);
    HitsBelow(g, stats, evs, 5);
    EveryPacketCountedOnce(g, evs);
  }

  // ---- Buckets do not interfere ----

  /** Only UDP packets read and write the entries of their bucket. */
  predicate InBucket(ev: Event, bucket: u16) { ev.kind.Udp? && ev.bucket == bucket }

  function Only(evs: seq<Event>, bucket: u16): seq<Event> {
    if evs == [] then [] else (if InBucket(evs[0], bucket) then [evs[0]] else []) + Only(evs[1..], bucket)
  }

  /** The actions taken for one bucket's packets, in order. */
  function ActionsFor(g: Gates, evs: seq<Event>, bucket: u16): seq<Action>
    decreases evs
  {
    if evs == [] then []
    else (if InBucket(evs[0], bucket) then [Decided(g, evs[0]).action] else [])
         + ActionsFor(Next(g, evs[0]), evs[1..], bucket)
  }

  function Actions(g: Gates, evs: seq<Event>): seq<Action>
    decreases evs
  {
    if evs == [] then [] else [Decided(g, evs[0]).action] + Actions(Next(g, evs[0]), evs[1..])
  }

  ghost predicate AgreeOn(g: Gates, h: Gates, bucket: u16) {
    && |g.udp| == |h.udp| && |g.syn| == |h.syn|
    && (bucket < |g.udp| ==> g.udp[bucket] == h.udp[bucket])
    && (bucket < |g.syn| ==> g.syn[bucket] == h.syn[bucket])
  }

  /** A packet of the bucket is decided alike in agreeing states; another packet keeps the agreement. */
  lemma AgreementStep(g: Gates, h: Gates, ev: Event, bucket: u16)
    requires AgreeOn(g, h, bucket)
    ensures InBucket(ev, bucket) ==>
      AgreeOn(Next(g, ev), Next(h, ev), bucket) && Decided(g, ev).action == Decided(h, ev).action
    ensures !InBucket(ev, bucket) ==> AgreeOn(Next(g, ev), h, bucket)
  {
  }

  lemma {:induction false} AgreementSuffices(g: Gates, h: Gates, evs: seq<Event>, bucket: u16)
    requires AgreeOn(g, h, bucket)
    ensures ActionsFor(g, evs, bucket) == Actions(h, Only(evs, bucket))
    decreases evs
  {
    if evs != [] {
      var ev, rest := evs[0], evs[1..];
      AgreementStep(g, h, ev, bucket);
      if InBucket(ev, bucket) {
        AgreementSuffices(Next(g, ev), Next(h, ev), rest, bucket);
        assert Only(evs, bucket)[1..] == Only(rest, bucket);
      } else {
        AgreementSuffices(Next(g, ev), h, rest, bucket);
        assert Only(evs, bucket) == Only(rest, bucket);
        assert ActionsFor(g, evs, bucket) == ActionsFor(Next(g, ev), rest, bucket);
      }
    }
  }

  /** In any interleaved run, a bucket's packets are treated as if all others were removed. */
  lemma BucketsDoNotInterfere(g: Gates, evs: seq<Event>, bucket: u16)
    ensures ActionsFor(g, evs, bucket) == Actions(g, Only(evs, bucket))
  {
    AgreementSuffices(g, g, evs, bucket);
  }

  // ---- What passes, over whole runs ----

  /** Position by position: a packet of a run passes if and only if the gates, as they then stand,
      the version and the permits of that moment admit it. */
  lemma {:induction false} ActionsMeaning(g: Gates, evs: seq<Event>, i: nat)
    requires i < |evs|
    ensures |Actions(g, evs)| == |evs|
    ensures var ev, at := evs[i], RunGates(g, evs[..i]);
      && (Actions(g, evs)[i] == Pass <==> Admitted(at, ev.permits, ev.kind, ev.bucket, ev.now))
      && (Actions(g, evs)[i] == Aborted <==> CutShort(at, ev.kind, ev.bucket, ev.now))
    decreases evs
  {
    if i == 0 {
      DecisionMeaning(g, evs[0].permits, evs[0].kind, evs[0].bucket, evs[0].now);
      if |evs| > 1 { ActionsMeaning(Next(g, evs[0]), evs[1..], 0); }
    } else {
      ActionsMeaning(Next(g, evs[0]), evs[1..], i - 1);
      assert evs[..i][1..] == evs[1..][..i - 1];
    }
  }

  // ---- Rates through the gates ----

  ghost predicate Clocked(evs: seq<Event>) { forall i, j :: 0 <= i <= j < |evs| ==> evs[i].now <= evs[j].now }

  /** The times at which a bucket's packets reach the UDP gate. */
  function UdpArrivals(evs: seq<Event>, bucket: u16): seq<u64> {
    if evs == [] then [] else (if InBucket(evs[0], bucket) then [evs[0].now] else []) + UdpArrivals(evs[1..], bucket)
  }

  predicate IsSynPacket(c: PacketClass) { c.Udp? && c.rest.Aitp? && c.rest.isSyn }

  /** A SYN of the bucket that the UDP gate did not drop. */
  predicate SynBehindUdpGate(g: Gates, ev: Event, bucket: u16) {
    InBucket(ev, bucket) && IsSynPacket(ev.kind) && Decided(g, ev).stat != Some(4)
  }

  /** The times at which a bucket's SYNs reach the SYN gate, behind the UDP gate. */
  function SynArrivals(g: Gates, evs: seq<Event>, bucket: u16): seq<u64>
    decreases evs
  {
    if evs == [] then []
    else (if SynBehindUdpGate(g, evs[0], bucket) then [evs[0].now] else [])
         + SynArrivals(Next(g, evs[0]), evs[1..], bucket)
  }

  /** SYNs of a bucket that neither gate drops in [lo, hi). */
  function SynsForwardedIn(g: Gates, evs: seq<Event>, bucket: u16, lo: nat, hi: nat): nat
    decreases evs
  {
    if evs == [] then 0
    else (if SynBehindUdpGate(g, evs[0], bucket) && lo <= evs[0].now < hi && Decided(g, evs[0]).stat != Some(5)
          then 1 else 0)
         + SynsForwardedIn(Next(g, evs[0]), evs[1..], bucket, lo, hi)
  }

  /** SYNs of a bucket that the whole filter passes in [lo, hi). */
  function SynsPassedIn(g: Gates, evs: seq<Event>, bucket: u16, lo: nat, hi: nat): nat
    decreases evs
  {
    if evs == [] then 0
    else (if InBucket(evs[0], bucket) && IsSynPacket(evs[0].kind) && lo <= evs[0].now < hi
             && Decided(g, evs[0]).action == Pass
          then 1 else 0)
         + SynsPassedIn(Next(g, evs[0]), evs[1..], bucket, lo, hi)
  }

  /** Packets of a bucket that are not dropped by the UDP gate in [lo, hi). */
  function UdpForwardedIn(g: Gates, evs: seq<Event>, bucket: u16, lo: nat, hi: nat): nat
    decreases evs
  {
    if evs == [] then 0
    else (if InBucket(evs[0], bucket) && lo <= evs[0].now < hi && Decided(g, evs[0]).stat != Some(4) then 1 else 0)
         + UdpForwardedIn(Next(g, evs[0]), evs[1..], bucket, lo, hi)
  }

  lemma {:induction false} UdpArrivalsOrdered(evs: seq<Event>, bucket: u16)
    requires Clocked(evs)
    ensures Ordered(UdpArrivals(evs, bucket))
    ensures forall i :: 0 <= i < |UdpArrivals(evs, bucket)| ==> evs != [] && evs[0].now <= UdpArrivals(evs, bucket)[i]
  {
    if evs != [] { UdpArrivalsOrdered(evs[1..], bucket); }
  }

  lemma {:induction false} SynArrivalsOrdered(g: Gates, evs: seq<Event>, bucket: u16)
    requires Clocked(evs)
    ensures Ordered(SynArrivals(g, evs, bucket))
    ensures forall i :: 0 <= i < |SynArrivals(g, evs, bucket)| ==>
      evs != [] && evs[0].now <= SynArrivals(g, evs, bucket)[i]
    decreases evs
  {
    if evs != [] { SynArrivalsOrdered(Next(g, evs[0]), evs[1..], bucket); }
  }

  ghost predicate FullTables(g: Gates) { |g.udp| == |g.syn| == BUCKETS }

  /** One packet and one bucket: its UDP entry moves, and decides, only for the bucket's packets. */
  lemma UdpGateStep(g: Gates, ev: Event, bucket: u16)
    requires FullTables(g)
    ensures FullTables(Next(g, ev))
    ensures Next(g, ev).udp[bucket] == if InBucket(ev, bucket) then Count(g.udp[bucket], ev.now) else g.udp[bucket]
    ensures InBucket(ev, bucket) ==>
      (Decided(g, ev).stat != Some(4) <==> Lets(g.udp[bucket], ev.now, MAX_UDP_PER_SEC))
  {
  }

  /** The same for the SYN gate, which only SYNs behind the UDP gate move. */
  lemma SynGateStep(g: Gates, ev: Event, bucket: u16)
    requires FullTables(g)
    ensures var reaches := SynBehindUdpGate(g, ev, bucket);
      && Next(g, ev).syn[bucket] == (if reaches then Count(g.syn[bucket], ev.now) else g.syn[bucket])
      && (reaches ==> (Decided(g, ev).stat != Some(5) <==> Lets(g.syn[bucket], ev.now, MAX_SYN_PER_SEC)))
  {
  }

  /** The UDP gate of a bucket is the fixed-window limiter run on that bucket's arrivals. */
  lemma {:induction false} UdpGateIsFixedWindow(g: Gates, evs: seq<Event>, bucket: u16, lo: nat, hi: nat)
    requires FullTables(g)
    ensures UdpForwardedIn(g, evs, bucket, lo, hi)
         == PassedIn(g.udp[bucket], UdpArrivals(evs, bucket), MAX_UDP_PER_SEC, lo, hi)
    decreases evs
  {
    if evs != [] {
      var ev, rest := evs[0], evs[1..];
      UdpGateStep(g, ev, bucket);
      UdpGateIsFixedWindow(Next(g, ev), rest, bucket, lo, hi);
      if InBucket(ev, bucket) {
        PassedInCons(g.udp[bucket], ev.now, UdpArrivals(rest, bucket), MAX_UDP_PER_SEC, lo, hi);
      } else {
        assert UdpArrivals(evs, bucket) == UdpArrivals(rest, bucket);
      }
    }
  }

  /** The SYN gate of a bucket is the fixed-window limiter run on the SYNs that the UDP gate forwards. */
  lemma {:induction false} SynGateIsFixedWindow(g: Gates, evs: seq<Event>, bucket: u16, lo: nat, hi: nat)
    requires FullTables(g)
    ensures SynsForwardedIn(g, evs, bucket, lo, hi)
         == PassedIn(g.syn[bucket], SynArrivals(g, evs, bucket), MAX_SYN_PER_SEC, lo, hi)
    decreases evs
  {
    if evs != [] {
      var ev, rest := evs[0], evs[1..];
      var later := SynArrivals(Next(g, ev), rest, bucket);
      UdpGateStep(g, ev, bucket);
      SynGateStep(g, ev, bucket);
      SynGateIsFixedWindow(Next(g, ev), rest, bucket, lo, hi);
      if SynBehindUdpGate(g, ev, bucket) {
        PassedInCons(g.syn[bucket], ev.now, later, MAX_SYN_PER_SEC, lo, hi);
      } else {
        assert SynArrivals(g, evs, bucket) == later;
      }
    }
  }

  /** A SYN that passes was dropped by neither gate; version and permits may still stop it. */
  lemma {:induction false} PassedSynsWereForwarded(g: Gates, evs: seq<Event>, bucket: u16, lo: nat, hi: nat)
    ensures SynsPassedIn(g, evs, bucket, lo, hi) <= SynsForwardedIn(g, evs, bucket, lo, hi)
    decreases evs
  {
    if evs != [] {
      DecisionMeaning(g, evs[0].permits, evs[0].kind, evs[0].bucket, evs[0].now);
      PassedSynsWereForwarded(Next(g, evs[0]), evs[1..], bucket, lo, hi);
    }
  }

  /** The SYNs that pass are bounded by what the bucket's SYN gate passes. */
  lemma SynsPassTheirGate(g: Gates, evs: seq<Event>, bucket: u16, lo: nat, hi: nat)
    requires FullTables(g)
    ensures SynsPassedIn(g, evs, bucket, lo, hi)
         <= PassedIn(g.syn[bucket], SynArrivals(g, evs, bucket), MAX_SYN_PER_SEC, lo, hi)
  {
    PassedSynsWereForwarded(g, evs, bucket, lo, hi);
    SynGateIsFixedWindow(g, evs, bucket, lo, hi);
  }

  /** From a state in which a bucket's two entries are zeroed, it gets at most (k+1)*50 SYNs and
      (k+1)*200 UDP packets through the gates in any interval of k seconds. */
  lemma RatesBoundedFrom(g: Gates, evs: seq<Event>, bucket: u16, lo: nat, k: nat)
    requires Clocked(evs) && FullTables(g) && g.udp[bucket] == g.syn[bucket] == ZEROED
    ensures SynsPassedIn(g, evs, bucket, lo, lo + k * TIME_WINDOW_NS) <= (k + 1) * MAX_SYN_PER_SEC
    ensures UdpForwardedIn(g, evs, bucket, lo, lo + k * TIME_WINDOW_NS) <= (k + 1) * MAX_UDP_PER_SEC
  {
    var hi := lo + k * TIME_WINDOW_NS;
    SynArrivalsOrdered(g, evs, bucket);
    SynsPassTheirGate(g, evs, bucket, lo, hi);
    IntervalBound(SynArrivals(g, evs, bucket), MAX_SYN_PER_SEC, lo, k);
    UdpArrivalsOrdered(evs, bucket);
    UdpGateIsFixedWindow(g, evs, bucket, lo, hi);
    IntervalBound(UdpArrivals(evs, bucket), MAX_UDP_PER_SEC, lo, k);
  }

  lemma ZeroedAtBoot(bucket: u16)
    ensures FullTables(ZEROED_GATES) && ZEROED_GATES.udp[bucket] == ZEROED_GATES.syn[bucket] == ZEROED
  {
  }

  /** From boot, those bounds hold of every bucket, whatever the other traffic and the permits are. */
  lemma BucketRatesBounded(evs: seq<Event>, bucket: u16, lo: nat, k: nat)
    requires Clocked(evs)
    ensures SynsPassedIn(ZEROED_GATES, evs, bucket, lo, lo + k * TIME_WINDOW_NS) <= (k + 1) * MAX_SYN_PER_SEC
    ensures UdpForwardedIn(ZEROED_GATES, evs, bucket, lo, lo + k * TIME_WINDOW_NS) <= (k + 1) * MAX_UDP_PER_SEC
  {
    ZeroedAtBoot(bucket);
    RatesBoundedFrom(ZEROED_GATES, evs, bucket, lo, k);
  }

  /** Every event carries the bucket its packet's source hashes to, as arrivals do. */
  ghost predicate Hashed(evs: seq<Event>) { forall i :: 0 <= i < |evs| ==> evs[i].bucket == Bucket(evs[i].kind) }

  lemma {:induction false} ArrivingIsHashed(raws: seq<RawPacket>)
    ensures Hashed(Arriving(raws)) && |Arriving(raws)| == |raws|
    ensures forall i :: 0 <= i < |raws| ==> Arriving(raws)[i] == Arrival(raws[i])
  {
    if raws != [] { ArrivingIsHashed(raws[1..]); }
  }

  /** SYNs of one source address that the whole filter passes in [lo, hi). */
  function SourceSynsPassedIn(g: Gates, evs: seq<Event>, src: u32, lo: nat, hi: nat): nat
    decreases evs
  {
    if evs == [] then 0
    else (if IsSynPacket(evs[0].kind) && evs[0].kind.src == src && lo <= evs[0].now < hi
             && Decided(g, evs[0]).action == Pass
          then 1 else 0)
         + SourceSynsPassedIn(Next(g, evs[0]), evs[1..], src, lo, hi)
  }

  lemma {:induction false} SourceWithinBucket(g: Gates, evs: seq<Event>, src: u32, bucket: u16, lo: nat, hi: nat)
    requires forall i :: 0 <= i < |evs| && evs[i].kind.Udp? && evs[i].kind.src == src ==> evs[i].bucket == bucket
    ensures SourceSynsPassedIn(g, evs, src, lo, hi) <= SynsPassedIn(g, evs, bucket, lo, hi)
    decreases evs
  {
    if evs != [] { SourceWithinBucket(Next(g, evs[0]), evs[1..], src, bucket, lo, hi); }
  }

  /** The promise to userspace: no source address gets more than (k+1)*50 handshake openings
      through in k seconds, whatever it sends and whoever shares its bucket. */
  lemma SourceSynsBounded(evs: seq<Event>, src: u32, lo: nat, k: nat)
    requires Clocked(evs) && Hashed(evs)
    ensures SourceSynsPassedIn(ZEROED_GATES, evs, src, lo, lo + k * 1_000_000_000) <= (k + 1) * 50
  {
    BucketRatesBounded(evs, Fnv.FnvHash(src), lo, k);
    SourceWithinBucket(ZEROED_GATES, evs, src, Fnv.FnvHash(src), lo, lo + k * TIME_WINDOW_NS);
  }

  // ---- The program on raw packets ----

  /** The kernel calls the program once per packet, after userspace has changed the permits. Its
      answers, statistics and gates are those of the run of arrivals the results above are about. */
  method Process(p: Program, raws: seq<RawPacket>) returns (actions: seq<Action>)
    requires p.Valid()
    modifies p`permitMap, p`statsMap, p.udpRate.entries, p.synRate.entries
    ensures p.Valid()
    ensures actions == Actions(old(p.State()), Arriving(raws))
    ensures p.statsMap == RunStats(old(p.State()), old(p.statsMap), Arriving(raws))
    ensures p.State() == RunGates(old(p.State()), Arriving(raws))
    ensures |actions| == |raws| == |Arriving(raws)|
    ensures forall i :: 0 <= i < |raws| ==>
      var ev := Arriving(raws)[i];
      (actions[i] == Pass <==>
         Admitted(RunGates(old(p.State()), Arriving(raws)[..i]), ev.permits, ev.kind, ev.bucket, ev.now))
    decreases raws
  {
    ArrivingIsHashed(raws);
    if raws == [] {
      return [];
    }
    ghost var g := p.State();
    forall i | 0 <= i < |raws|
      ensures |Actions(g, Arriving(raws))| == |raws|
      ensures var ev := Arriving(raws)[i];
        (Actions(g, Arriving(raws))[i] == Pass <==>
           Admitted(RunGates(g, Arriving(raws)[..i]), ev.permits, ev.kind, ev.bucket, ev.now))
    {
      ActionsMeaning(g, Arriving(raws), i);
    }
    p.permitMap := raws[0].permits;
    var action := p.KelanXdp(raws[0].bytes, raws[0].now);
    assert Arriving(raws)[0] == Arrival(raws[0]) && Arriving(raws)[1..] == Arriving(raws[1..]);
    var rest := Process(p, raws[1..]);
    return [action] + rest;
  }
}
