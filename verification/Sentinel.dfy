/** The Sentinel anomaly detector: sliding windows over bounded queues
    (kelan/sentinel/detector.py:26-117). */
module Sentinel {
  import opened Common
  import opened Trust

  const ENROL_MAXLEN := 200
  const CONNECT_MAXLEN := 1000
  const EVENTS_MAXLEN := 2000

  datatype AnomalyEvent = AnomalyEvent(source: string, kind: string, severity: real, count: nat)

  /** One call of `analyze`: the tracked key, and what the intent text says. */
  datatype Request = Request(key: string, enrol: bool, auth: bool, now: real)

  datatype Kind = Enrolment | Connection | Auth

  predicate Matches(r: Request, kind: Kind, key: string) {
    r.key == key && (kind == Connection || (kind == Enrolment && r.enrol) || (kind == Auth && r.auth))
  }

  // ---- Counting on the unbounded raw history ----

  /** Requests of a kind from a key less than `window` seconds before `now`. */
  function Tally(history: seq<Request>, kind: Kind, key: string, now: real, window: real): nat {
    if history == [] then 0
    else (if Matches(history[0], kind, key) && now - history[0].now < window then 1 else 0)
         + Tally(history[1..], kind, key, now, window)
  }

  /** The requests of a kind from a key within the window, by their places in the history. */
  function Places(history: seq<Request>, kind: Kind, key: string, now: real, window: real): set<nat> {
    set i: nat | i < |history|
      && history[i].key == key && now - history[i].now < window
      && (kind == Enrolment ==> history[i].enrol) && (kind == Auth ==> history[i].auth)
  }

  /** The first request, if it counts, and the later ones moved on by one place. */
  lemma PlacesSplit(history: seq<Request>, kind: Kind, key: string, now: real, window: real, i: nat)
    requires history != []
    ensures i in Places(history, kind, key, now, window) <==>
      if i == 0 then Matches(history[0], kind, key) && now - history[0].now < window
      else i - 1 in Places(history[1..], kind, key, now, window)
  {
    if 0 < i < |history| { assert history[i] == history[1..][i - 1]; }
  }

  lemma {:induction false} ShiftKeepsSize(s: set<nat>, shifted: set<nat>)
    requires forall i: nat :: i in shifted <==> i >= 1 && i - 1 in s
    ensures |shifted| == |s|
    decreases s
  {
    if s == {} {
      assert shifted == {};
    } else {
      var x :| x in s;
      assert x + 1 in shifted;
      ShiftKeepsSize(s - {x}, shifted - {x + 1});
    }
  }

  /** The tally is their number. */
  lemma {:induction false} TallyCountsPlaces(history: seq<Request>, kind: Kind, key: string, now: real, window: real)
    ensures Tally(history, kind, key, now, window) == |Places(history, kind, key, now, window)|
  {
    var all := Places(history, kind, key, now, window);
    if history == [] {
      assert all == {};
    } else {
      TallyCountsPlaces(history[1..], kind, key, now, window);
      forall i: nat ensures i in all - {0} <==> i >= 1 && i - 1 in Places(history[1..], kind, key, now, window) {
        PlacesSplit(history, kind, key, now, window, i);
      }
      ShiftKeepsSize(Places(history[1..], kind, key, now, window), all - {0});
      PlacesSplit(history, kind, key, now, window, 0);
      if 0 in all { assert all == (all - {0}) + {0}; } else { assert all == all - {0}; }
    }
  }

  /** The times of all requests of a kind from a key. */
  function Times(history: seq<Request>, kind: Kind, key: string): seq<real> {
    if history == [] then []
    else (if Matches(history[0], kind, key) then [history[0].now] else []) + Times(history[1..], kind, key)
  }

  function CountRecent(ts: seq<real>, now: real, window: real): nat {
    if ts == [] then 0 else (if now - ts[0] < window then 1 else 0) + CountRecent(ts[1..], now, window)
  }

  ghost predicate Clocked(history: seq<Request>) {
    forall i, j :: 0 <= i <= j < |history| ==> history[i].now <= history[j].now
  }

  lemma {:induction false} TallyCountsTimes(history: seq<Request>, kind: Kind, key: string, now: real, window: real)
    ensures CountRecent(Times(history, kind, key), now, window) == Tally(history, kind, key, now, window)
  {
    if history != [] {
      var rest := Times(history[1..], kind, key);
      TallyCountsTimes(history[1..], kind, key, now, window);
      if Matches(history[0], kind, key) {
        assert Times(history, kind, key)[1..] == rest;
      } else {
        assert Times(history, kind, key) == rest;
      }
    }
  }

  lemma {:induction false} TimesAppend(history: seq<Request>, r: Request, kind: Kind, key: string)
    ensures Times(history + [r], kind, key)
         == Times(history, kind, key) + (if Matches(r, kind, key) then [r.now] else [])
  {
    if history == [] {
      assert history + [r] == [r];
    } else {
      assert (history + [r])[1..] == history[1..] + [r] && (history + [r])[0] == history[0];
      TimesAppend(history[1..], r, kind, key);
      var head := if Matches(history[0], kind, key) then [history[0].now] else [];
      var added := if Matches(r, kind, key) then [r.now] else [];
      assert (head + Times(history[1..], kind, key)) + added == head + (Times(history[1..], kind, key) + added);
    }
  }

  lemma {:induction false} TimesOrdered(history: seq<Request>, kind: Kind, key: string)
    requires Clocked(history)
    ensures NonDecreasing(Times(history, kind, key))
    ensures forall i :: 0 <= i < |Times(history, kind, key)| ==>
      history != [] && history[0].now <= Times(history, kind, key)[i]
  {
    if history != [] { TimesOrdered(history[1..], kind, key); }
  }

  // ---- Bounded queues ----

  lemma {:induction false} CountRecentBounds(ts: seq<real>, now: real, window: real)
    requires NonDecreasing(ts)
    ensures CountRecent(ts, now, window) <= |ts|
    ensures ts != [] && now - ts[0] < window ==> CountRecent(ts, now, window) == |ts|
  {
    if ts != [] { CountRecentBounds(ts[1..], now, window); }
  }

  /** Under a clock that never goes back, a queue that keeps the last n times counts
      min(true count, n) of them in any window. */
  lemma {:induction false} BoundedQueueCount(ts: seq<real>, n: nat, now: real, window: real)
    requires NonDecreasing(ts)
    ensures CountRecent(LastN(ts, n), now, window) == Min(CountRecent(ts, now, window), n)
  {
    CountRecentBounds(ts, now, window);
    if |ts| > n {
      CountRecentBounds(LastN(ts, n), now, window);
      CountRecentBounds(ts[1..], now, window);
      assert LastN(ts, n) == LastN(ts[1..], n);
      BoundedQueueCount(ts[1..], n, now, window);
    }
  }

  ghost predicate FlagAgrees(ts: seq<real>, n: nat, threshold: nat, now: real, window: real) {
    CountRecent(LastN(ts, n), now, window) > threshold <==> CountRecent(ts, now, window) > threshold
  }

  /** A queue bound hides no flag and invents none, over every history, exactly when it exceeds
      the threshold the count is compared with. */
  lemma BoundNeverMattersIff(n: nat, threshold: nat, window: real)
    requires window > 0.0
    ensures (forall ts, now | NonDecreasing(ts) :: FlagAgrees(ts, n, threshold, now, window)) <==> threshold < n
  {
    if threshold < n {
      forall ts, now | NonDecreasing(ts) ensures FlagAgrees(ts, n, threshold, now, window) {
        BoundedQueueCount(ts, n, now, window);
      }
    } else {
      var ts: seq<real> := seq(threshold + 1, _ => 0.0);
      CountRecentBounds(ts, 0.0, window);
      BoundedQueueCount(ts, n, 0.0, window);
      assert !FlagAgrees(ts, n, threshold, 0.0, window);
    }
  }

  // ---- The report ----

  function WindowOf(kind: Kind): real {
    match kind
    case Enrolment => 5.0
    case Connection => 1.0
    case Auth => 60.0
  }

  /** Enrolment and connection queues are bounded; the authentication list is not. */
  function Bound(kind: Kind): Option<nat> {
    match kind
    case Enrolment => Some(ENROL_MAXLEN)
    case Connection => Some(CONNECT_MAXLEN)
    case Auth => None
  }

  function Kept(ts: seq<real>, kind: Kind): seq<real> {
    if Bound(kind).Some? then LastN(ts, Bound(kind).value) else ts
  }

  function Capped(n: nat, kind: Kind): nat { if Bound(kind).Some? then Min(n, Bound(kind).value) else n }

  function EnrolReport(count: nat): Anomalies {
    if count > 10 then
      map["rapid_enrollment_burst" := Flag(true), "enrollment_count_from_ip" := Num(count as real),
          "enrollment_window_seconds" := Num(5.0), "pattern" := Text("sybil_attack")]
    else map[]
  }

  function FloodReport(count: nat): Anomalies {
    if count > 50 then
      map["syn_rate_per_second" := Num(count as real), "threshold" := Num(50.0), "pattern" := Text("flood_attack")]
    else map[]
  }

  function AuthReport(count: nat): Anomalies {
    if count > 20 then
      map["failed_auth_attempts" := Num(count as real), "window_seconds" := Num(60.0), "pattern" := Text("brute_force")]
    else map[]
  }

  function Last(history: seq<Request>): Request
    requires history != []
  {
    history[|history| - 1]
  }

  /** The count a check of the last request sees: the tally on the raw history, capped by the queue. */
  function Seen(history: seq<Request>, kind: Kind): nat
    requires history != []
  {
    Capped(Tally(history, kind, Last(history).key, Last(history).now, WindowOf(kind)), kind)
  }

  /** The findings of the enrolment and connection checks. */
  function EarlyReport(history: seq<Request>): Anomalies
    requires history != []
  {
    (if Last(history).enrol then EnrolReport(Seen(history, Enrolment)) else map[])
    + FloodReport(Seen(history, Connection))
  }

  /** The findings of the authentication check. */
  function LateReport(history: seq<Request>): Anomalies
    requires history != []
  {
    if Last(history).auth then AuthReport(Seen(history, Auth)) else map[]
  }

  /** The anomalies of the last request, from the unbounded history up to and including it. */
  function Report(history: seq<Request>): Anomalies
    requires history != []
  {
    EarlyReport(history) + LateReport(history)
  }

  /** What a report holds, finding by finding: its count, capped by its queue, exactly when the
      unbounded count exceeds the flag's threshold. */
  lemma ReportMeaning(history: seq<Request>)
    requires history != []
    ensures var r, a := Last(history), Report(history);
      var enrolments := Tally(history, Enrolment, r.key, r.now, 5.0);
      var connections := Tally(history, Connection, r.key, r.now, 1.0);
      var attempts := Tally(history, Auth, r.key, r.now, 60.0);
      && Finding(a, "enrollment_count_from_ip", r.enrol && enrolments > 10, Min(enrolments, 200))
      && Finding(a, "syn_rate_per_second", connections > 50, Min(connections, 1000))
      && Finding(a, "failed_auth_attempts", r.auth && attempts > 20, attempts)
  {
  }

  predicate Finding(a: Anomalies, key: string, raised: bool, count: nat) {
    if raised then key in a && a[key] == Num(count as real) else key !in a
  }

  /** The pattern is that of the last finding, as each overwrites the one before. */
  lemma PatternIsLastFinding(history: seq<Request>)
    requires history != []
    ensures var r, a := Last(history), Report(history);
      var sybil := r.enrol && Tally(history, Enrolment, r.key, r.now, 5.0) > 10;
      var flood := Tally(history, Connection, r.key, r.now, 1.0) > 50;
      var brute := r.auth && Tally(history, Auth, r.key, r.now, 60.0) > 20;
      && ("pattern" in a <==> sybil || flood || brute)
      && (brute ==> a["pattern"] == Text("brute_force"))
      && (flood && !brute ==> a["pattern"] == Text("flood_attack"))
      && (sybil && !flood && !brute ==> a["pattern"] == Text("sybil_attack"))
  {
  }

  // ---- The event log ----

  /** The alarm of one check, if it raised one. */
  function Alarm(raised: bool, event: AnomalyEvent): seq<AnomalyEvent> { if raised then [event] else [] }

  function EnrolAlarm(history: seq<Request>): seq<AnomalyEvent>
    requires history != []
  {
    var n := Seen(history, Enrolment);
    Alarm(Last(history).enrol && n > 10, AnomalyEvent(Last(history).key, "sybil_attack", 0.90, n))
  }

  function FloodAlarm(history: seq<Request>): seq<AnomalyEvent>
    requires history != []
  {
    var n := Seen(history, Connection);
    Alarm(n > 50, AnomalyEvent(Last(history).key, "flood", 0.95, n))
  }

  function AuthAlarm(history: seq<Request>): seq<AnomalyEvent>
    requires history != []
  {
    var n := Seen(history, Auth);
    Alarm(Last(history).auth && n > 20, AnomalyEvent(Last(history).key, "brute_force", 0.85, n))
  }

  function NewAlarms(history: seq<Request>): seq<AnomalyEvent>
    requires history != []
  {
    EnrolAlarm(history) + FloodAlarm(history) + AuthAlarm(history)
  }

  /** Every alarm a run has raised, oldest first, without any bound. */
  function Alarms(history: seq<Request>): seq<AnomalyEvent> {
    if history == [] then []
    else Alarms(history[..|history| - 1]) + NewAlarms(history)
  }

  /** The alarm `e` is what the last request of a history calls for, judged by the unbounded counts. */
  predicate CallsFor(history: seq<Request>, e: AnomalyEvent)
    requires history != []
  {
    var r := Last(history);
    var enrolments := Tally(history, Enrolment, r.key, r.now, 5.0);
    var connections := Tally(history, Connection, r.key, r.now, 1.0);
    var attempts := Tally(history, Auth, r.key, r.now, 60.0);
    || (r.enrol && enrolments > 10 && e == AnomalyEvent(r.key, "sybil_attack", 0.90, Min(enrolments, ENROL_MAXLEN)))
    || (connections > 50 && e == AnomalyEvent(r.key, "flood", 0.95, Min(connections, CONNECT_MAXLEN)))
    || (r.auth && attempts > 20 && e == AnomalyEvent(r.key, "brute_force", 0.85, attempts))
  }

  lemma LastAlarmsIff(history: seq<Request>, e: AnomalyEvent)
    requires history != []
    ensures e in NewAlarms(history) <==> CallsFor(history, e)
  {
    assert e in NewAlarms(history) <==> e in EnrolAlarm(history) || e in FloodAlarm(history) || e in AuthAlarm(history);
  }

  ghost predicate EverCalledFor(history: seq<Request>, e: AnomalyEvent) {
    exists n: nat | 1 <= n <= |history| :: CallsFor(history[..n], e)
  }

  lemma EverCalledForSplits(history: seq<Request>, e: AnomalyEvent)
    requires history != []
    ensures EverCalledFor(history, e) <==> EverCalledFor(history[..|history| - 1], e) || CallsFor(history, e)
  {
    var init := history[..|history| - 1];
    assert forall n: nat | 1 <= n <= |init| :: init[..n] == history[..n];
    assert history[..|history|] == history;
    if EverCalledFor(history, e) {
      var n: nat :| 1 <= n <= |history| && CallsFor(history[..n], e);
      if n < |history| { assert CallsFor(init[..n], e); }
    }
  }

  lemma AlarmsSplit(history: seq<Request>, e: AnomalyEvent)
    requires history != []
    ensures e in Alarms(history) <==> e in Alarms(history[..|history| - 1]) || CallsFor(history, e)
  {
    LastAlarmsIff(history, e);
  }

  /** Over a whole run, an alarm is raised if and only if some request called for it. */
  lemma {:induction false} AlarmRaisedIff(history: seq<Request>, e: AnomalyEvent)
    ensures e in Alarms(history) <==> EverCalledFor(history, e)
  {
    if history != [] {
      AlarmRaisedIff(history[..|history| - 1], e);
      EverCalledForSplits(history, e);
      AlarmsSplit(history, e);
    }
  }

  /** The event log: the latest alarms of the whole run. */
  function EventLog(alarms: seq<AnomalyEvent>): seq<AnomalyEvent> { LastN(alarms, EVENTS_MAXLEN) }

  lemma Regroup<T>(a: seq<T>, b: seq<T>, c: seq<T>, d: seq<T>)
    ensures a + (b + c + d) == a + b + c + d
  {
  }

  lemma AlarmsAppend(history: seq<Request>, r: Request)
    ensures var h := history + [r]; Alarms(h) == Alarms(history) + EnrolAlarm(h) + FloodAlarm(h) + AuthAlarm(h)
  {
    var h := history + [r];
    assert h[..|history|] == history;
    Regroup(Alarms(history), EnrolAlarm(h), FloodAlarm(h), AuthAlarm(h));
  }

  // ---- The detector ----

  predicate OccursAt(s: string, part: string, i: nat) { i + |part| <= |s| && s[i..i + |part|] == part }

  predicate Contains(s: string, part: string) { exists i: nat | i <= |s| :: OccursAt(s, part, i) }

  /** The substring test finds the part wherever it stands, and only where it does. */
  lemma ContainsIff(s: string, part: string)
    ensures Contains(s, part) <==> exists before, after :: s == before + part + after
  {
    if Contains(s, part) {
      var i: nat :| i <= |s| && OccursAt(s, part, i);
      assert s == s[..i] + part + s[i + |part|..];
    }
    if before, after :| s == before + part + after {
      assert OccursAt(s, part, |before|);
    }
  }

  /** The list comprehension and `len` around a window. */
  method InWindow(q: seq<real>, now: real, window: real) returns (n: nat)
    ensures n == CountRecent(q, now, window)
  {
    n := 0;
    for i := |q| downto 0
      invariant n == CountRecent(q[i..], now, window)
    {
      assert q[i..][1..] == q[i + 1..];
      if now - q[i] < window { n := n + 1; }
    }
  }

  lemma KeptAppend(ts: seq<real>, x: real, kind: Kind)
    ensures Kept(Kept(ts, kind) + [x], kind) == Kept(ts + [x], kind)
  {
    if Bound(kind).Some? { PushBoundedKeepsLastN(ts, x, Bound(kind).value); }
  }

  /** Every queue of a kind holds what the bound keeps of that key's raw history. */
  ghost predicate Tracks(queues: map<string, seq<real>>, history: seq<Request>, kind: Kind) {
    forall key: string :: GetOr(queues, key, []) == Kept(Times(history, kind, key), kind)
  }

  lemma TracksAppend(queues: map<string, seq<real>>, history: seq<Request>, kind: Kind, r: Request)
    requires Tracks(queues, history, kind) && Matches(r, kind, r.key)
    ensures Tracks(queues[r.key := Kept(GetOr(queues, r.key, []) + [r.now], kind)], history + [r], kind)
  {
    var q := queues[r.key := Kept(GetOr(queues, r.key, []) + [r.now], kind)];
    forall key: string ensures GetOr(q, key, []) == Kept(Times(history + [r], kind, key), kind) {
      assert GetOr(queues, key, []) == Kept(Times(history, kind, key), kind);
      TimesAppend(history, r, kind, key);
      if key == r.key {
        KeptAppend(Times(history, kind, key), r.now, kind);
      } else {
        assert Times(history, kind, key) + [] == Times(history, kind, key);
      }
    }
  }

  lemma TracksIgnores(queues: map<string, seq<real>>, history: seq<Request>, kind: Kind, r: Request)
    requires Tracks(queues, history, kind) && !Matches(r, kind, r.key)
    ensures Tracks(queues, history + [r], kind)
  {
    forall key: string ensures GetOr(queues, key, []) == Kept(Times(history + [r], kind, key), kind) {
      TimesAppend(history, r, kind, key);
      assert Times(history, kind, key) + [] == Times(history, kind, key);
    }
  }

  /** The count read from a tracking queue is the count on the raw history, capped by the bound. */
  lemma TrackedCount(queues: map<string, seq<real>>, history: seq<Request>, kind: Kind, key: string, now: real)
    requires Tracks(queues, history, kind) && Clocked(history)
    ensures CountRecent(GetOr(queues, key, []), now, WindowOf(kind))
         == Capped(Tally(history, kind, key, now, WindowOf(kind)), kind)
  {
    var ts := Times(history, kind, key);
    TimesOrdered(history, kind, key);
    TallyCountsTimes(history, kind, key, now, WindowOf(kind));
    if Bound(kind).Some? { BoundedQueueCount(ts, Bound(kind).value, now, WindowOf(kind)); }
  }

  class SentinelDetector {
    var enroll: map<string, seq<real>>
    var connect: map<string, seq<real>>
    var authFail: map<string, seq<real>>
    var events: seq<AnomalyEvent>
    ghost var history: seq<Request>

    ghost predicate Valid()
      reads this
    {
      && Clocked(history)
      && Tracks(enroll, history, Enrolment) && Tracks(connect, history, Connection) && Tracks(authFail, history, Auth)
      && events == EventLog(Alarms(history))
    }

    constructor ()
      ensures Valid() && history == [] && events == []
    {
      enroll, connect, authFail, events, history := map[], map[], map[], [], [];
    }

    /** One more alarm; `alarms` are those raised before it. */
    method Emit(event: AnomalyEvent, ghost alarms: seq<AnomalyEvent>)
      requires events == EventLog(alarms)
      modifies this`events
      ensures events == EventLog(alarms + [event])
    {
      PushBoundedKeepsLastN(alarms, event, EVENTS_MAXLEN);
      events := PushBounded(events, event, EVENTS_MAXLEN);
    }

    method AnalyzeEnrolment(key: string, now: real, ghost r: Request, ghost alarms: seq<AnomalyEvent>)
        returns (part: Anomalies)
      requires Tracks(enroll, history, Enrolment) && Clocked(history + [r]) && r.key == key && r.enrol && r.now == now
      requires events == EventLog(alarms)
      modifies this`enroll, this`events
      ensures Tracks(enroll, history + [r], Enrolment)
      ensures part == EnrolReport(Seen(history + [r], Enrolment))
      ensures events == EventLog(alarms + EnrolAlarm(history + [r]))
    {
      TracksAppend(enroll, history, Enrolment, r);
      var q := PushBounded(GetOr(enroll, key, []), now, ENROL_MAXLEN);
      enroll := enroll[key := q];
      TrackedCount(enroll, history + [r], Enrolment, key, now);
      var burst := InWindow(q, now, 5.0);
      part := EnrolReport(burst);
      if burst > 10 {
        Emit(AnomalyEvent(key, "sybil_attack", 0.90, burst), alarms);
      } else {
        assert alarms + [] == alarms;
      }
    }

    method AnalyzeConnection(key: string, now: real, ghost r: Request, ghost alarms: seq<AnomalyEvent>)
        returns (part: Anomalies)
      requires Tracks(connect, history, Connection) && Clocked(history + [r]) && r.key == key && r.now == now
      requires events == EventLog(alarms)
      modifies this`connect, this`events
      ensures Tracks(connect, history + [r], Connection)
      ensures part == FloodReport(Seen(history + [r], Connection))
      ensures events == EventLog(alarms + FloodAlarm(history + [r]))
    {
      TracksAppend(connect, history, Connection, r);
      var q := PushBounded(GetOr(connect, key, []), now, CONNECT_MAXLEN);
      connect := connect[key := q];
      TrackedCount(connect, history + [r], Connection, key, now);
      var rate := InWindow(q, now, 1.0);
      part := FloodReport(rate);
      if rate > 50 {
        Emit(AnomalyEvent(key, "flood", 0.95, rate), alarms);
      } else {
        assert alarms + [] == alarms;
      }
    }

    method AnalyzeAuth(key: string, now: real, ghost r: Request, ghost alarms: seq<AnomalyEvent>)
        returns (part: Anomalies)
      requires Tracks(authFail, history, Auth) && Clocked(history + [r]) && r.key == key && r.auth && r.now == now
      requires events == EventLog(alarms)
      modifies this`authFail, this`events
      ensures Tracks(authFail, history + [r], Auth)
      ensures part == AuthReport(Seen(history + [r], Auth))
      ensures events == EventLog(alarms + AuthAlarm(history + [r]))
    {
      TracksAppend(authFail, history, Auth, r);
      var fails := GetOr(authFail, key, []) + [now];
      authFail := authFail[key := fails];
      TrackedCount(authFail, history + [r], Auth, key, now);
      var recent := InWindow(fails, now, 60.0);
      part := AuthReport(recent);
      if recent > 20 {
        Emit(AnomalyEvent(key, "brute_force", 0.85, recent), alarms);
      } else {
        assert alarms + [] == alarms;
      }
    }

    method EarlyChecks(key: string, enrol: bool, now: real, ghost r: Request) returns (out: Anomalies)
      requires Valid() && Clocked(history + [r]) && r.key == key && r.enrol == enrol && r.now == now
      modifies this`enroll, this`connect, this`events
      ensures Tracks(enroll, history + [r], Enrolment) && Tracks(connect, history + [r], Connection)
      ensures out == EarlyReport(history + [r])
      ensures events == EventLog(Alarms(history) + EnrolAlarm(history + [r]) + FloodAlarm(history + [r]))
    {
      out := map[];
      if enrol {
        out := AnalyzeEnrolment(key, now, r, Alarms(history));
      } else {
        TracksIgnores(enroll, history, Enrolment, r);
        assert Alarms(history) + [] == Alarms(history);
      }
      var flood := AnalyzeConnection(key, now, r, Alarms(history) + EnrolAlarm(history + [r]));
      out := out + flood;
    }

    method LateCheck(key: string, auth: bool, now: real, ghost r: Request, ghost alarms: seq<AnomalyEvent>)
        returns (part: Anomalies)
      requires Tracks(authFail, history, Auth) && Clocked(history + [r])
        && r.key == key && r.auth == auth && r.now == now
      requires events == EventLog(alarms)
      modifies this`authFail, this`events
      ensures Tracks(authFail, history + [r], Auth)
      ensures part == LateReport(history + [r])
      ensures events == EventLog(alarms + AuthAlarm(history + [r]))
    {
      if auth {
        part := AnalyzeAuth(key, now, r, alarms);
      } else {
        part := map[];
        TracksIgnores(authFail, history, Auth, r);
        assert alarms + [] == alarms;
      }
    }

    /** The request joins the history once every check has seen it. */
    ghost method Record(r: Request)
      requires Clocked(history + [r])
      requires Tracks(enroll, history + [r], Enrolment) && Tracks(connect, history + [r], Connection)
      requires Tracks(authFail, history + [r], Auth)
      requires var h := history + [r];
        events == EventLog(Alarms(history) + EnrolAlarm(h) + FloodAlarm(h) + AuthAlarm(h))
      modifies this`history
      ensures Valid() && history == old(history) + [r]
    {
      AlarmsAppend(history, r);
      history := history + [r];
    }

    /** The checks in order; each merges its findings into the report. */
    method RunChecks(key: string, enrol: bool, auth: bool, now: real) returns (out: Anomalies)
      requires Valid()
      requires Clocked(history + [Request(key, enrol, auth, now)])
      modifies this
      ensures Valid()
      ensures history == old(history) + [Request(key, enrol, auth, now)]
      ensures out == Report(history)
    {
      ghost var r := Request(key, enrol, auth, now);
      ghost var h := history + [r];
      out := EarlyChecks(key, enrol, now, r);
      var brute := LateCheck(key, auth, now, r, Alarms(history) + EnrolAlarm(h) + FloodAlarm(h));
      out := out + brute;
      assert out == Report(h);
      Record(r);
    }

    /** `upperIntent` is the intent after `str.upper`. */
    method Analyze(entityId: string, upperIntent: string, sourceIp: string, now: real) returns (out: Anomalies)
      requires Valid()
      requires history != [] ==> history[|history| - 1].now <= now
      modifies this
      ensures Valid()
      ensures history == old(history) + [Request(if sourceIp != "" then sourceIp else entityId,
                                                 Contains(upperIntent, "ENROL"), Contains(upperIntent, "AUTH"), now)]
      ensures out == Report(history) && events == LastN(Alarms(history), 2000)
    {
      var key := if sourceIp != "" then sourceIp else entityId;
      out := RunChecks(key, Contains(upperIntent, "ENROL"), Contains(upperIntent, "AUTH"), now);
    }
  }
}
