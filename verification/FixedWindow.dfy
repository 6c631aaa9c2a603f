/** The per-bucket fixed-window limiter of the XDP program (main.rs:204-241). */
module FixedWindow {
  import opened Common

  const TIME_WINDOW_NS: nat := 1_000_000_000

  datatype RateEntry = RateEntry(count: u32, lastResetNs: u64)

  /** Map entries start zeroed, so the first window is the one that begins at time 0. */
  const ZEROED := RateEntry(0, 0)

  function SaturatingSub(a: nat, b: nat): nat { if a >= b then a - b else 0 }

  predicate Expired(e: RateEntry, now: u64) { SaturatingSub(now, e.lastResetNs) >= TIME_WINDOW_NS }

  /** The entry after one packet. */
  function Count(e: RateEntry, now: u64): RateEntry {
    if Expired(e, now) then RateEntry(1, now) else e.(count := Min(e.count + 1, U32_MAX))
  }

  /** Whether the packet is let through: the first of a window always is. */
  predicate Lets(e: RateEntry, now: u64, threshold: u32) {
    Expired(e, now) || Count(e, now).count <= threshold
  }

  /** A rate table: one entry per bucket, updated in place. */
  class RateTable {
    const entries: array<RateEntry>

    constructor (size: nat)
      ensures fresh(entries) && entries.Length == size
      ensures entries[..] == seq(size, _ => ZEROED)
    {
      entries := new RateEntry[size](_ => ZEROED);
    }

    /** True when the packet must be dropped. A bucket outside the table fails open. */
    method CheckRate(key: u32, now: u64, threshold: u32) returns (drop: bool)
      modifies entries
      ensures entries[..] == CountIn(old(entries[..]), key % 0x1_0000, now)
      ensures drop == !LetsIn(old(entries[..]), key % 0x1_0000, now, threshold)
    {
      var bucket := key % 0x1_0000;
      if bucket >= entries.Length {
        return false;
      }
      var entry := entries[bucket];
      if SaturatingSub(now, entry.lastResetNs) >= TIME_WINDOW_NS {
        entries[bucket] := RateEntry(1, now);
        return false;
      }
      entry := entry.(count := if entry.count == U32_MAX then U32_MAX else entry.count + 1);
      entries[bucket] := entry;
      return entry.count > threshold;
    }
  }

  function CountIn(table: seq<RateEntry>, bucket: nat, now: u64): seq<RateEntry> {
    if bucket < |table| then table[bucket := Count(table[bucket], now)] else table
  }

  predicate LetsIn(table: seq<RateEntry>, bucket: nat, now: u64, threshold: u32) {
    bucket < |table| ==> Lets(table[bucket], now, threshold)
  }

  // ---- Runs of one bucket ----

  ghost predicate Ordered(ts: seq<u64>) { forall i, j :: 0 <= i <= j < |ts| ==> ts[i] <= ts[j] }

  /** How many packets of a run pass with a time in the half-open interval [lo, hi). */
  function PassedIn(e: RateEntry, ts: seq<u64>, threshold: u32, lo: nat, hi: nat): nat
    decreases ts
  {
    if ts == [] then 0
    else (if lo <= ts[0] < hi && Lets(e, ts[0], threshold) then 1 else 0)
         + PassedIn(Count(e, ts[0]), ts[1..], threshold, lo, hi)
  }

  lemma PassedInCons(e: RateEntry, t: u64, ts: seq<u64>, threshold: u32, lo: nat, hi: nat)
    ensures PassedIn(e, [t] + ts, threshold, lo, hi)
         == (if lo <= t < hi && Lets(e, t, threshold) then 1 else 0) + PassedIn(Count(e, t), ts, threshold, lo, hi)
  {
    assert ([t] + ts)[1..] == ts;
  }

  /** What the open window may still let through at or after lo. */
  function Residual(e: RateEntry, threshold: u32, lo: nat): nat {
    if e.lastResetNs + TIME_WINDOW_NS <= lo then 0 else SaturatingSub(threshold, e.count)
  }

  /** The most windows that can begin in [from, hi). */
  function Resets(from: nat, hi: nat): nat {
    if hi <= from then 0 else (hi - from + TIME_WINDOW_NS - 1) / TIME_WINDOW_NS
  }

  function NextReset(e: RateEntry, lo: nat): nat { Max(lo, e.lastResetNs + TIME_WINDOW_NS) }

  lemma ResetsAntitone(a: nat, b: nat, hi: nat, threshold: nat)
    requires a <= b
    ensures threshold * Resets(b, hi) <= threshold * Resets(a, hi)
  {
    assert Resets(b, hi) <= Resets(a, hi);
    MulMonotone(threshold, Resets(b, hi), Resets(a, hi));
  }

  lemma MulMonotone(t: nat, a: nat, b: nat)
    requires a <= b
    ensures t * a <= t * b
  {
  }

  lemma OneMoreReset(t: nat, hi: nat, threshold: nat)
    requires t < hi
    ensures threshold + threshold * Resets(t + TIME_WINDOW_NS, hi) <= threshold * Resets(t, hi)
  {
    assert Resets(t + TIME_WINDOW_NS, hi) + 1 <= Resets(t, hi);
    MulMonotone(threshold, Resets(t + TIME_WINDOW_NS, hi) + 1, Resets(t, hi));
    assert threshold * (Resets(t + TIME_WINDOW_NS, hi) + 1) == threshold * Resets(t + TIME_WINDOW_NS, hi) + threshold;
  }

  ghost predicate LegalThreshold(threshold: u32) { 1 <= threshold < U32_MAX }

  /** Once the run is inside the interval, each remaining window costs at most one threshold. */
  lemma {:induction false} BoundFromInside(e: RateEntry, ts: seq<u64>, threshold: u32, lo: nat, hi: nat)
    requires LegalThreshold(threshold) && Ordered(ts)
    requires forall i :: 0 <= i < |ts| ==> lo <= ts[i] && e.lastResetNs <= ts[i]
    ensures PassedIn(e, ts, threshold, lo, hi) <= Residual(e, threshold, lo) + threshold * Resets(NextReset(e, lo), hi)
    decreases ts
  {
    if ts != [] {
      var t, e' := ts[0], Count(e, ts[0]);
      if hi <= t {
        Beyond(e, ts, threshold, lo, hi);
      } else {
        BoundFromInside(e', ts[1..], threshold, lo, hi);
        if Expired(e, t) {
          ResetsAntitone(NextReset(e, lo), t, hi, threshold);
          OneMoreReset(t, hi, threshold);
        }
      }
    }
  }

  lemma {:induction false} Beyond(e: RateEntry, ts: seq<u64>, threshold: u32, lo: nat, hi: nat)
    requires forall i :: 0 <= i < |ts| ==> hi <= ts[i]
    ensures PassedIn(e, ts, threshold, lo, hi) == 0
    decreases ts
  {
    if ts != [] { Beyond(Count(e, ts[0]), ts[1..], threshold, lo, hi); }
  }

  /** Before the interval, a window may open whose first packet falls outside it. */
  lemma {:induction false} BoundFromOutside(e: RateEntry, ts: seq<u64>, threshold: u32, lo: nat, hi: nat)
    requires LegalThreshold(threshold) && Ordered(ts)
    requires forall i :: 0 <= i < |ts| ==> e.lastResetNs <= ts[i]
    ensures PassedIn(e, ts, threshold, lo, hi)
         <= Max(Residual(e, threshold, lo), threshold - 1) + threshold * Resets(NextReset(e, lo), hi)
    decreases ts
  {
    if ts != [] {
      if lo <= ts[0] {
        BoundFromInside(e, ts, threshold, lo, hi);
      } else {
        var e' := Count(e, ts[0]);
        BoundFromOutside(e', ts[1..], threshold, lo, hi);
        ResetsAntitone(NextReset(e, lo), NextReset(e', lo), hi, threshold);
      }
    }
  }

  lemma {:induction false} SplitInterval(e: RateEntry, ts: seq<u64>, threshold: u32, lo: nat, mid: nat, hi: nat)
    requires lo <= mid <= hi
    ensures PassedIn(e, ts, threshold, lo, hi)
         == PassedIn(e, ts, threshold, lo, mid) + PassedIn(e, ts, threshold, mid, hi)
    decreases ts
  {
    if ts != [] { SplitInterval(Count(e, ts[0]), ts[1..], threshold, lo, mid, hi); }
  }

  lemma {:induction false} EmptyInterval(e: RateEntry, ts: seq<u64>, threshold: u32, lo: nat, hi: nat)
    requires hi <= lo
    ensures PassedIn(e, ts, threshold, lo, hi) == 0
    decreases ts
  {
    if ts != [] { EmptyInterval(Count(e, ts[0]), ts[1..], threshold, lo, hi); }
  }

  lemma ResetsWithin(from: nat, lo: nat, k: nat, threshold: nat)
    requires lo <= from
    ensures threshold * Resets(from, lo + k * TIME_WINDOW_NS) <= threshold * k
  {
    assert Resets(from, lo + k * TIME_WINDOW_NS) <= k;
    MulMonotone(threshold, Resets(from, lo + k * TIME_WINDOW_NS), k);
  }

  /** Fixed-window interval bound. Over any run of one bucket, a half-open interval of k
      windows lets through at most (k+1)*threshold packets, and one fewer when none of them
      falls in the zero-initialised first window. */
  lemma IntervalBound(ts: seq<u64>, threshold: u32, lo: nat, k: nat)
    requires LegalThreshold(threshold) && Ordered(ts)
    ensures PassedIn(ZEROED, ts, threshold, lo, lo + k * TIME_WINDOW_NS) <= (k + 1) * threshold
    ensures PassedIn(ZEROED, ts, threshold, lo, Min(TIME_WINDOW_NS, lo + k * TIME_WINDOW_NS)) == 0
        ==> PassedIn(ZEROED, ts, threshold, lo, lo + k * TIME_WINDOW_NS) <= (k + 1) * threshold - 1
  {
    var hi := lo + k * TIME_WINDOW_NS;
    BoundFromOutside(ZEROED, ts, threshold, lo, hi);
    ResetsWithin(NextReset(ZEROED, lo), lo, k, threshold);
    assert (k + 1) * threshold == threshold * k + threshold;
    if lo < TIME_WINDOW_NS {
      if k == 0 {
        EmptyInterval(ZEROED, ts, threshold, lo, hi);
      } else {
        SplitInterval(ZEROED, ts, threshold, lo, TIME_WINDOW_NS, hi);
        BoundFromOutside(ZEROED, ts, threshold, TIME_WINDOW_NS, hi);
        ResetsAntitone(NextReset(ZEROED, lo), TIME_WINDOW_NS, hi, threshold);
      }
    }
  }

  ghost predicate BoundedOn(ts: seq<u64>, threshold: u32, lo: nat, k: nat) {
    PassedIn(ZEROED, ts, threshold, lo, lo + k * TIME_WINDOW_NS) <= (k + 1) * threshold
  }

  /** The bound holds of every run exactly for thresholds strictly between 0 and the largest
      u32: at 0 each window still passes its first packet, and at the largest u32 the
      saturated count never exceeds the threshold. */
  lemma BoundHoldsExactly(threshold: u32)
    ensures (forall ts: seq<u64>, lo: nat, k: nat | Ordered(ts) :: BoundedOn(ts, threshold, lo, k))
      <==> LegalThreshold(threshold)
  {
    if LegalThreshold(threshold) {
      forall ts: seq<u64>, lo: nat, k: nat | Ordered(ts) ensures BoundedOn(ts, threshold, lo, k) {
        IntervalBound(ts, threshold, lo, k);
      }
    } else if threshold == 0 {
      var ts: seq<u64> := [TIME_WINDOW_NS];
      assert ts[1..] == [];
      assert PassedIn(ZEROED, ts, 0, 0, 2 * TIME_WINDOW_NS) == 1;
      assert Ordered(ts) && !BoundedOn(ts, 0, 0, 2);
    } else {
      var n := 2 * U32_MAX + 1;
      var ts: seq<u64> := Burst(0, n);
      WindowExact(ZEROED, ts, threshold, 0, TIME_WINDOW_NS);
      assert 0 + 1 * TIME_WINDOW_NS == TIME_WINDOW_NS;
      assert Ordered(ts) && !BoundedOn(ts, threshold, 0, 1);
    }
  }

  // ---- Inside one window ----

  predicate Within(e: RateEntry, ts: seq<u64>, lo: nat, hi: nat) {
    forall i :: 0 <= i < |ts| ==> !Expired(e, ts[i]) && lo <= ts[i] < hi
  }

  /** In an open window the gate passes exactly the first packets up to the threshold, however
      many arrive; with the largest u32 as threshold saturation lets all of them through. */
  lemma {:induction false} WindowExact(e: RateEntry, ts: seq<u64>, threshold: u32, lo: nat, hi: nat)
    requires Within(e, ts, lo, hi)
    ensures PassedIn(e, ts, threshold, lo, hi)
         == if threshold == U32_MAX then |ts| else Min(|ts|, SaturatingSub(threshold, e.count))
    decreases ts
  {
    if ts != [] { WindowExact(Count(e, ts[0]), ts[1..], threshold, lo, hi); }
  }

  /** A window that the packet at time t opens and that then sees the packets ts: of these n
      packets exactly min(n, threshold) pass, and at least the first. */
  lemma OpenedWindowExact(e: RateEntry, t: u64, ts: seq<u64>, threshold: u32, lo: nat, hi: nat)
    requires Expired(e, t) && lo <= t < hi
    requires Within(RateEntry(1, t), ts, lo, hi)
    requires threshold < U32_MAX
    ensures PassedIn(e, [t] + ts, threshold, lo, hi) == Min(1 + |ts|, Max(threshold, 1))
  {
    assert ([t] + ts)[1..] == ts;
    WindowExact(RateEntry(1, t), ts, threshold, lo, hi);
  }

  // ---- The interval bound is attained ----

  function Burst(t: u64, n: nat): seq<u64> { seq(n, _ => t) }

  function After(e: RateEntry, ts: seq<u64>): RateEntry
    decreases ts
  {
    if ts == [] then e else After(Count(e, ts[0]), ts[1..])
  }

  lemma {:induction false} PassedInConcat(e: RateEntry, a: seq<u64>, b: seq<u64>, threshold: u32, lo: nat, hi: nat)
    ensures PassedIn(e, a + b, threshold, lo, hi)
         == PassedIn(e, a, threshold, lo, hi) + PassedIn(After(e, a), b, threshold, lo, hi)
    decreases a
  {
    if a == [] {
      assert a + b == b;
    } else {
      assert (a + b)[1..] == a[1..] + b;
      PassedInConcat(Count(e, a[0]), a[1..], b, threshold, lo, hi);
    }
  }

  /** Bursts of `threshold` packets at the window starts j, j+1, ..., k. */
  function Bursts(threshold: u32, j: nat, k: nat): seq<u64>
    requires k * TIME_WINDOW_NS <= U64_MAX
    decreases k + 1 - j
  {
    if j > k then [] else
      assert j * TIME_WINDOW_NS <= U64_MAX;
      Burst(j * TIME_WINDOW_NS, threshold) + Bursts(threshold, j + 1, k)
  }

  lemma {:induction false} BurstOutcome(e: RateEntry, t: u64, n: nat, threshold: u32, lo: nat, hi: nat)
    requires LegalThreshold(threshold) && lo <= t < hi
    requires if Expired(e, t) then 1 <= n <= threshold else e.count + n <= threshold
    ensures PassedIn(e, Burst(t, n), threshold, lo, hi) == n
    ensures n > 0 ==> After(e, Burst(t, n)).lastResetNs == if Expired(e, t) then t else e.lastResetNs
    ensures n == 0 ==> After(e, Burst(t, n)) == e
    decreases n
  {
    if n > 0 {
      assert Burst(t, n)[1..] == Burst(t, n - 1);
      BurstOutcome(Count(e, t), t, n - 1, threshold, lo, hi);
    }
  }

  lemma {:induction false} BurstsOutcome(e: RateEntry, threshold: u32, j: nat, k: nat, lo: nat, hi: nat)
    requires LegalThreshold(threshold) && k * TIME_WINDOW_NS <= U64_MAX && 1 <= j <= k + 1
    requires e.lastResetNs <= (j - 1) * TIME_WINDOW_NS
    requires lo <= j * TIME_WINDOW_NS && k * TIME_WINDOW_NS < hi
    ensures PassedIn(e, Bursts(threshold, j, k), threshold, lo, hi) == (k + 1 - j) * threshold
    ensures Ordered(Bursts(threshold, j, k))
    ensures forall i :: 0 <= i < |Bursts(threshold, j, k)| ==> j * TIME_WINDOW_NS <= Bursts(threshold, j, k)[i]
    decreases k + 1 - j
  {
    if j <= k {
      var t := j * TIME_WINDOW_NS;
      assert t <= k * TIME_WINDOW_NS;
      BurstOutcome(e, t, threshold, threshold, lo, hi);
      var e' := After(e, Burst(t, threshold));
      BurstsOutcome(e', threshold, j + 1, k, lo, hi);
      PassedInConcat(e, Burst(t, threshold), Bursts(threshold, j + 1, k), threshold, lo, hi);
      assert (k + 1 - j) * threshold == threshold + (k - j) * threshold;
    }
  }

  ghost predicate Attains(ts: seq<u64>, threshold: u32, lo: nat, k: nat) {
    Ordered(ts) && PassedIn(ZEROED, ts, threshold, lo, lo + k * TIME_WINDOW_NS) == (k + 1) * threshold
  }

  /** Some run lets (k+1)*threshold packets through in k windows, for every k >= 1 whose windows fit
      into the 64-bit clock. */
  lemma IntervalBoundIsTight(threshold: u32, k: nat) returns (ts: seq<u64>, lo: nat)
    requires LegalThreshold(threshold) && 1 <= k && k * TIME_WINDOW_NS <= U64_MAX
    ensures Attains(ts, threshold, lo, k)
  {
    lo := TIME_WINDOW_NS - 1;
    var hi := lo + k * TIME_WINDOW_NS;
    var first := Burst(lo, threshold);
    BurstOutcome(ZEROED, lo, threshold, threshold, lo, hi);
    BurstsOutcome(After(ZEROED, first), threshold, 1, k, lo, hi);
    PassedInConcat(ZEROED, first, Bursts(threshold, 1, k), threshold, lo, hi);
    ts := first + Bursts(threshold, 1, k);
    assert (k + 1) * threshold == threshold + k * threshold;
  }

  /** Without an interval, or with one that outlasts the clock, the bound is not reached. */
  lemma BoundOutOfReach(ts: seq<u64>, threshold: u32, lo: nat, k: nat)
    requires LegalThreshold(threshold) && (k == 0 || k * TIME_WINDOW_NS > U64_MAX)
    ensures !Attains(ts, threshold, lo, k)
  {
    var hi, end := lo + k * TIME_WINDOW_NS, U64_MAX + 1;
    if k == 0 {
      EmptyInterval(ZEROED, ts, threshold, lo, hi);
    } else if lo >= end {
      BeforeInterval(ZEROED, ts, threshold, lo, hi);
      MulMonotone(threshold, 1, k + 1);
    } else if Ordered(ts) {
      SplitInterval(ZEROED, ts, threshold, lo, end, hi);
      BeforeInterval(ZEROED, ts, threshold, end, hi);
      BoundFromOutside(ZEROED, ts, threshold, lo, end);
      assert Resets(NextReset(ZEROED, lo), end) <= k - 1;
      MulMonotone(threshold, Resets(NextReset(ZEROED, lo), end), k - 1);
      assert (k + 1) * threshold == threshold * (k - 1) + 2 * threshold;
    }
  }

  lemma {:induction false} BeforeInterval(e: RateEntry, ts: seq<u64>, threshold: u32, lo: nat, hi: nat)
    requires U64_MAX < lo
    ensures PassedIn(e, ts, threshold, lo, hi) == 0
    decreases ts
  {
    if ts != [] { BeforeInterval(Count(e, ts[0]), ts[1..], threshold, lo, hi); }
  }

  /** The bound (k+1)*threshold is reached by some run if and only if there is an interval at all and
      its k windows fit into the 64-bit clock. */
  lemma BoundAttainedIff(threshold: u32, k: nat)
    requires LegalThreshold(threshold)
    ensures (exists ts, lo :: Attains(ts, threshold, lo, k)) <==> 1 <= k && k * TIME_WINDOW_NS <= U64_MAX
  {
    if 1 <= k && k * TIME_WINDOW_NS <= U64_MAX {
      var ts, lo := IntervalBoundIsTight(threshold, k);
    } else {
      forall ts, lo ensures !Attains(ts, threshold, lo, k) { BoundOutOfReach(ts, threshold, lo, k); }
    }
  }

  /** A window opened by one packet at TIME_WINDOW_NS passes threshold-1 more at its end, and the k
      windows after it pass threshold each. */
  lemma LaterBursts(threshold: u32, k: nat, lo: nat) returns (ts: seq<u64>)
    requires LegalThreshold(threshold) && 1 <= k && (k + 1) * TIME_WINDOW_NS <= U64_MAX
    requires lo == 2 * TIME_WINDOW_NS - 1
    ensures Ordered(ts) && forall i :: 0 <= i < |ts| ==> lo <= ts[i]
    ensures PassedIn(RateEntry(1, TIME_WINDOW_NS), ts, threshold, lo, lo + k * TIME_WINDOW_NS)
         == (k + 1) * threshold - 1
  {
    var open, hi := RateEntry(1, TIME_WINDOW_NS), lo + k * TIME_WINDOW_NS;
    assert lo <= U64_MAX;
    var first, bursts := Burst(lo, threshold - 1), Bursts(threshold, 2, k + 1);
    BurstOutcome(open, lo, threshold - 1, threshold, lo, hi);
    BurstsOutcome(After(open, first), threshold, 2, k + 1, lo, hi);
    PassedInConcat(open, first, bursts, threshold, lo, hi);
    ts := first + bursts;
    assert (k + 1) * threshold == threshold + k * threshold;
  }

  /** Outside the zero-initialised first window the smaller bound cannot be improved either: a window
      opened before the interval has threshold-1 packets left for it. */
  lemma LaterBoundIsTight(threshold: u32, k: nat) returns (ts: seq<u64>, lo: nat)
    requires LegalThreshold(threshold) && 1 <= k && (k + 1) * TIME_WINDOW_NS <= U64_MAX
    ensures Ordered(ts) && TIME_WINDOW_NS <= lo
    ensures PassedIn(ZEROED, ts, threshold, lo, lo + k * TIME_WINDOW_NS) == (k + 1) * threshold - 1
  {
    lo := 2 * TIME_WINDOW_NS - 1;
    var later := LaterBursts(threshold, k, lo);
    ts := [TIME_WINDOW_NS] + later;
    assert ts[1..] == later;
  }
}
