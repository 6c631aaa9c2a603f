/** The C packet filter: blacklist, per-source packet counter, permit lookup
    (aitp-ebpf/src/xdp_filter.bpf.c:112-203), in the Linux header layout and without eviction. */
module CFilter {
  import opened Common
  import opened Packet

  const SYN_RATE_THRESHOLD := 200
  const SESSION_OFFSET := 3
  const SESSION_END := 11
  const WORD32 := 0x1_0000_0000
  const WORD64 := 0x1_0000_0000_0000_0000

  /** A packet the filter does not look at, or one to the AITP port with its source and session id. */
  datatype Kind = Irrelevant | Target(src: u32, session: Option<u64>)

  function KindOf(packet: seq<u8>): Kind {
    if |packet| < ETH_HDR_LEN || BigEndian16(packet, 12) != ETH_P_IP then Irrelevant
    else if |packet| < ETH_HDR_LEN + IPV4_HDR_LEN || packet[ETH_HDR_LEN + 9] != IPPROTO_UDP then Irrelevant
    else
      var udp := ETH_HDR_LEN + HeaderLength(packet[ETH_HDR_LEN]);
      if |packet| < udp + UDP_HDR_LEN || BigEndian16(packet, udp + 2) != AITP_PORT then Irrelevant
      else Target(BigEndian32(packet, ETH_HDR_LEN + 12), SessionId(packet[udp + UDP_HDR_LEN..]))
  }

  /** The eight bytes from offset 3 of the payload, most significant first. */
  function SessionId(payload: seq<u8>): Option<u64> {
    if |payload| < SESSION_END then None
    else
      assert Pow256(8) == WORD64 by { Pow256Of8(); }
      Some(BigEndian(payload[SESSION_OFFSET..SESSION_END]))
  }

  lemma {:induction false} Pow256Monotone(i: nat, j: nat)
    requires i <= j
    ensures Pow256(i) <= Pow256(j)
  {
    if i < j { Pow256Monotone(i, j - 1); }
  }

  /** The unrolled loop: shift left by eight, then or in the next byte. The low eight bits are
      zero after the shift, so the or is an addition. */
  method AssembleSessionId(payload: seq<u8>) returns (sessionId: u64)
    requires |payload| >= SESSION_END
    ensures Some(sessionId) == SessionId(payload)
  {
    sessionId := 0;
    Pow256Of8();
    for i := 0 to 8
      invariant sessionId == BigEndian(payload[SESSION_OFFSET..SESSION_OFFSET + i])
    {
      var bytes := payload[SESSION_OFFSET..SESSION_OFFSET + i + 1];
      assert bytes[..|bytes| - 1] == payload[SESSION_OFFSET..SESSION_OFFSET + i];
      Pow256Monotone(i + 1, 8);
      assert BigEndian(bytes) == 256 * sessionId + payload[SESSION_OFFSET + i];
      sessionId := (sessionId as nat * 256) % WORD64 + payload[SESSION_OFFSET + i];
    }
  }

  /** Different session bytes never share an id. */
  lemma SessionIdInjective(a: seq<u8>, b: seq<u8>)
    requires SessionId(a).Some? && SessionId(a) == SessionId(b)
    ensures a[SESSION_OFFSET..SESSION_END] == b[SESSION_OFFSET..SESSION_END]
  {
    BigEndianInjective(a[SESSION_OFFSET..SESSION_END], b[SESSION_OFFSET..SESSION_END]);
  }

  /** A frame cut off after n bytes is to the AITP port if its fields say so and both headers are
      complete; its session id is the eight bytes from the fourth of the payload on. */
  lemma KindOfFrame(f: Frame, n: nat)
    requires f.WellFormed() && n <= |f.Bytes()|
    ensures var m := n - 42 - |f.options|;
      KindOf(f.Bytes()[..n]) ==
        if m < 0 || f.etherType != 0x0800 || f.protocol != 17 || f.dstPort != 9999 then Irrelevant
        else Target(f.src, SessionId(f.payload[..m]))
  {
    if n >= 14 { PrefixReads(f, n); }
  }

  /** A session id written at its place in the payload is the one that is read. */
  lemma SessionIdReadsBack(start: seq<u8>, sid: u64, rest: seq<u8>)
    requires |start| == 3
    ensures SessionId(start + Put64(sid) + rest) == Some(sid)
    ensures forall n: nat | n < 11 :: SessionId((start + Put64(sid) + rest)[..n]) == None
  {
    var payload := start + Put64(sid) + rest;
    assert payload[3..11] == Put64(sid);
    Get64(sid, payload, 3);
    BigEndian64IsBigEndian(payload, 3);
  }

  // ---- The filter ----

  datatype Outcome = NotOurs | Blacklisted | RateDropped | ShortPayload | NoPermit | Permitted

  predicate Drops(o: Outcome) { !o.NotOurs? && !o.Permitted? }

  /** Drops that are counted; a payload too short for a session id is dropped silently. */
  predicate Counted(o: Outcome) { o.Blacklisted? || o.RateDropped? || o.NoPermit? }

  /** The 64-bit drop counter after a packet. */
  function DropsAfter(counter: u64, o: Outcome): u64 { if Counted(o) then (counter + 1) % WORD64 else counter }

  datatype Tables = Tables(blacklist: map<u32, u8>, permits: set<u64>)

  predicate Blocked(t: Tables, src: u32) { src in t.blacklist && t.blacklist[src] != 0 }

  /** Packets that get as far as the per-source counter. */
  predicate ReachesRate(t: Tables, k: Kind) { k.Target? && !Blocked(t, k.src) }

  function Outcomes(rate: map<u32, u32>, t: Tables, k: Kind): Outcome {
    if k.Irrelevant? then NotOurs
    else if Blocked(t, k.src) then Blacklisted
    else if GetOr(rate, k.src, 0) >= SYN_RATE_THRESHOLD then RateDropped
    else if k.session.None? then ShortPayload
    else if k.session.value in t.permits then Permitted else NoPermit
  }

  /** A missing counter is created at 1; an existing one is incremented modulo 2^32. */
  function RateAfter(rate: map<u32, u32>, t: Tables, k: Kind): map<u32, u32> {
    if ReachesRate(t, k) then rate[k.src := (GetOr(rate, k.src, 0) + 1) % WORD32] else rate
  }

  /** Which packets pass, condition by condition: all but those to the AITP port, and of these the
      ones whose source is not blocked and has sent fewer than 200 since the reset, and whose
      session is permitted. */
  lemma PassesIff(rate: map<u32, u32>, t: Tables, k: Kind)
    ensures !Drops(Outcomes(rate, t, k)) <==>
      || k.Irrelevant?
      || (&& !(k.src in t.blacklist && t.blacklist[k.src] != 0)
          && (k.src in rate ==> rate[k.src] < 200)
          && k.session.Some? && k.session.value in t.permits)
    ensures Outcomes(rate, t, k).ShortPayload? <==>
      && k.Target? && !(k.src in t.blacklist && t.blacklist[k.src] != 0)
      && (k.src in rate ==> rate[k.src] < 200) && k.session.None?
  {
  }

  /** Which packets count against their source: those to the AITP port whose source is not blocked, the
      ones dropped for their number or their length included. */
  lemma CountedAgainstSource(rate: map<u32, u32>, t: Tables, k: Kind)
    ensures RateAfter(rate, t, k) ==
      if k.Irrelevant? || (k.src in t.blacklist && t.blacklist[k.src] != 0) then rate
      else rate[k.src := if k.src in rate then (rate[k.src] as nat + 1) % 0x1_0000_0000 else 1]
  {
  }

  class Filter {
    var tables: Tables
    var rate: map<u32, u32>
    var dropCounter: u64

    constructor (tables: Tables)
      ensures this.tables == tables && rate == map[] && dropCounter == 0
    {
      this.tables, rate, dropCounter := tables, map[], 0;
    }

    method CountDrop()
      modifies this`dropCounter
      ensures dropCounter == (old(dropCounter) + 1) % WORD64
    {
      dropCounter := (dropCounter + 1) % WORD64;
    }

    /** True is XDP_PASS, false XDP_DROP. */
    method AitpXdpFilter(packet: seq<u8>) returns (pass: bool)
      modifies this`rate, this`dropCounter
      ensures rate == RateAfter(old(rate), tables, KindOf(packet))
      ensures var o := Outcomes(old(rate), tables, KindOf(packet));
        pass == !Drops(o) && dropCounter == DropsAfter(old(dropCounter), o)
      ensures var k := KindOf(packet);
        pass <==>
          || k.Irrelevant?
          || (&& !(k.src in tables.blacklist && tables.blacklist[k.src] != 0)
              && (k.src in old(rate) ==> old(rate)[k.src] < 200)
              && k.session.Some? && k.session.value in tables.permits)
    {
      PassesIff(rate, tables, KindOf(packet));
      if |packet| < ETH_HDR_LEN { return true; }
      if BigEndian16(packet, 12) != ETH_P_IP { return true; }
      if |packet| < ETH_HDR_LEN + IPV4_HDR_LEN { return true; }
      if packet[ETH_HDR_LEN + 9] != IPPROTO_UDP { return true; }
      var udp := ETH_HDR_LEN + HeaderLength(packet[ETH_HDR_LEN]);
      if |packet| < udp + UDP_HDR_LEN { return true; }
      if BigEndian16(packet, udp + 2) != AITP_PORT { return true; }
      pass := FilterTarget(BigEndian32(packet, ETH_HDR_LEN + 12), packet[udp + UDP_HDR_LEN..]);
    }

    /** The defence layers, for a packet to the AITP port. */
    method FilterTarget(src: u32, payload: seq<u8>) returns (pass: bool)
      modifies this`rate, this`dropCounter
      ensures rate == RateAfter(old(rate), tables, Target(src, SessionId(payload)))
      ensures var o := Outcomes(old(rate), tables, Target(src, SessionId(payload)));
        pass == !Drops(o) && dropCounter == DropsAfter(old(dropCounter), o)
    {
      if src in tables.blacklist && tables.blacklist[src] != 0 {
        CountDrop();
        return false;
      }
      if src in rate {
        var count := rate[src];
        rate := rate[src := (count + 1) % WORD32];
        if count >= SYN_RATE_THRESHOLD {
          CountDrop();
          return false;
        }
      } else {
        rate := rate[src := 1];
      }
      if |payload| < SESSION_END { return false; }
      var sessionId := AssembleSessionId(payload);
      if sessionId in tables.permits { return true; }
      CountDrop();
      return false;
    }
  }

  // ---- Whole runs between two resets ----

  /** Packets of a run; userspace may change its tables between them. */
  datatype Event = Event(kind: Kind, tables: Tables)

  function Decided(rate: map<u32, u32>, ev: Event): Outcome { Outcomes(rate, ev.tables, ev.kind) }

  function Next(rate: map<u32, u32>, ev: Event): map<u32, u32> { RateAfter(rate, ev.tables, ev.kind) }

  /** The program's drop counter after a run. */
  function RunDropCounter(counter: u64, rate: map<u32, u32>, evs: seq<Event>): u64
    decreases evs
  {
    if evs == [] then counter
    else RunDropCounter(DropsAfter(counter, Decided(rate, evs[0])), Next(rate, evs[0]), evs[1..])
  }

  /** How many packets of a run are answered with a drop. */
  function DropCount(rate: map<u32, u32>, evs: seq<Event>): nat
    decreases evs
  {
    if evs == [] then 0
    else (if Drops(Decided(rate, evs[0])) then 1 else 0) + DropCount(Next(rate, evs[0]), evs[1..])
  }

  /** How many packets of a run get past the rate layer without room for a session id. */
  function ShortDrops(rate: map<u32, u32>, evs: seq<Event>): (n: nat)
    ensures n <= DropCount(rate, evs)
    decreases evs
  {
    if evs == [] then 0
    else (if Decided(rate, evs[0]).ShortPayload? then 1 else 0) + ShortDrops(Next(rate, evs[0]), evs[1..])
  }

  lemma CounterStep(counter: u64, o: Outcome, later: nat)
    ensures (DropsAfter(counter, o) + later) % WORD64 == (counter + (later + if Counted(o) then 1 else 0)) % WORD64
  {
    if Counted(o) { ModAbsorbs(counter + 1, later); }
  }

  lemma OneDrop(rate: map<u32, u32>, evs: seq<Event>)
    requires evs != []
    ensures var later := DropCount(Next(rate, evs[0]), evs[1..]) - ShortDrops(Next(rate, evs[0]), evs[1..]);
      DropCount(rate, evs) - ShortDrops(rate, evs) == later + (if Counted(Decided(rate, evs[0])) then 1 else 0)
  {
  }

  /** The counter misses exactly the short payloads: over every run it moves on by the packets
      dropped less those, modulo 2^64. */
  lemma {:induction false} DropsBalance(counter: u64, rate: map<u32, u32>, evs: seq<Event>)
    ensures RunDropCounter(counter, rate, evs) == (counter + DropCount(rate, evs) - ShortDrops(rate, evs)) % WORD64
    decreases evs
  {
    if evs != [] {
      var o, rate', rest := Decided(rate, evs[0]), Next(rate, evs[0]), evs[1..];
      DropsBalance(DropsAfter(counter, o), rate', rest);
      OneDrop(rate, evs);
      assert DropCount(rate, evs) - ShortDrops(rate, evs)
          == DropCount(rate', rest) - ShortDrops(rate', rest) + if Counted(o) then 1 else 0;
      CounterStep(counter, o, DropCount(rate', rest) - ShortDrops(rate', rest));
    }
  }

  predicate From(ev: Event, src: u32) { ReachesRate(ev.tables, ev.kind) && ev.kind.src == src }

  function Arrivals(evs: seq<Event>, src: u32): nat {
    if evs == [] then 0 else (if From(evs[0], src) then 1 else 0) + Arrivals(evs[1..], src)
  }

  /** Packets of a source that the rate layer lets through. */
  function RatePasses(rate: map<u32, u32>, evs: seq<Event>, src: u32): nat
    decreases evs
  {
    if evs == [] then 0
    else (if From(evs[0], src) && !Decided(rate, evs[0]).RateDropped? then 1 else 0)
         + RatePasses(Next(rate, evs[0]), evs[1..], src)
  }

  /** Of n consecutive counter values from c on, modulo 2^32, how many are below the threshold. */
  function Below(c: u32, n: nat): nat
    decreases n
  {
    if n == 0 then 0 else (if c < SYN_RATE_THRESHOLD then 1 else 0) + Below((c + 1) % WORD32, n - 1)
  }

  lemma {:induction false} PassesFollowCounter(rate: map<u32, u32>, evs: seq<Event>, src: u32)
    ensures RatePasses(rate, evs, src) == Below(GetOr(rate, src, 0), Arrivals(evs, src))
    decreases evs
  {
    if evs != [] { PassesFollowCounter(Next(rate, evs[0]), evs[1..], src); }
  }

  /** How many of the first n counter values lie below the threshold. */
  function Upto(n: nat): nat { SYN_RATE_THRESHOLD * (n / WORD32) + Min(n % WORD32, SYN_RATE_THRESHOLD) }

  lemma UptoStep(c: u32)
    ensures Upto(c + 1) == Upto(c) + (if c < SYN_RATE_THRESHOLD then 1 else 0)
  {
  }

  lemma UptoTurn(n: nat)
    ensures Upto(WORD32 + n) == Upto(WORD32) + Upto(n) && Upto(0) == 0
  {
    assert (WORD32 + n) / WORD32 == 1 + n / WORD32;
  }

  /** Each full turn of the 32-bit counter lets 200 packets through again. */
  lemma {:induction false} BelowClosedForm(c: u32, n: nat)
    ensures Upto(c) + Below(c, n) == Upto(c + n)
    decreases n
  {
    if n > 0 {
      UptoStep(c);
      if c + 1 < WORD32 {
        BelowNext(c, n);
        BelowClosedForm(c + 1, n - 1);
        assert c + 1 + (n - 1) == c + n;
      } else {
        BelowNext(c, n);
        BelowClosedForm(0, n - 1);
        UptoTurn(n - 1);
        assert WORD32 + (n - 1) == c + n;
      }
    }
  }

  lemma BelowNext(c: u32, n: nat)
    requires n > 0
    ensures Below(c, n) == (if c < SYN_RATE_THRESHOLD then 1 else 0) + Below(if c + 1 < WORD32 then c + 1 else 0, n - 1)
  {
  }

  lemma UptoExact(n: nat)
    ensures Upto(n) == Min(n, SYN_RATE_THRESHOLD) <==> n <= WORD32
  {
    if n > WORD32 { assert n / WORD32 >= 1 && (n / WORD32 == 1 ==> n % WORD32 >= 1); }
  }

  /** From a reset, of n packets of a source exactly min(n, 200) pass the rate layer up to n = 2^32;
      beyond that the counter has wrapped and lets 200 more through per turn. */
  lemma RateLayerExact(rate: map<u32, u32>, evs: seq<Event>, src: u32)
    requires GetOr(rate, src, 0) == 0
    ensures var n := Arrivals(evs, src);
      && RatePasses(rate, evs, src) == SYN_RATE_THRESHOLD * (n / WORD32) + Min(n % WORD32, SYN_RATE_THRESHOLD)
      && (RatePasses(rate, evs, src) == Min(n, SYN_RATE_THRESHOLD) <==> n <= WORD32)
  {
    PassesFollowCounter(rate, evs, src);
    BelowClosedForm(0, Arrivals(evs, src));
    UptoTurn(0);
    UptoExact(Arrivals(evs, src));
  }
}
